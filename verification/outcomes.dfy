/** Results of operations that can fail, and the insertion-ordered
    dictionary that the scripts fill in their loops. */
module Outcomes {
  import opened Seqs

  datatype Option<+T> = None | Some(value: T)

  /** The exceptions that escape every handler in the scripts and end the run. */
  datatype Crash =
    | ValueError(text: string)        // int() of a segment that is not a number
    | IndexError(line: string)        // line.split()[1] of a one-token line
    | NoneUnpacked(package: string)   // unpacking the None that process_package returns

  datatype Result<+T> = Ok(value: T) | Err(error: Crash)

  /** A Python dict: keys in insertion order, assigning an existing key keeps
      its position. */
  datatype Dict<K(==,!new), V> = Dict(keys: seq<K>, entries: map<K, V>) {

    ghost predicate Valid() {
      NoDup(keys) && (forall k :: k in entries <==> k in keys)
    }

    /** `d[k] = v` */
    function Put(k: K, v: V): (d: Dict<K, V>)
      requires Valid()
      ensures d.Valid()
      ensures d.entries == entries[k := v]
      ensures d.keys == if k in entries then keys else keys + [k]
    {
      if k in entries then Dict(keys, entries[k := v]) else Dict(keys + [k], entries[k := v])
    }

    /** `list(d.values())` */
    function Values(): (vs: seq<V>)
      requires Valid()
      ensures |vs| == |keys|
      ensures forall i | 0 <= i < |keys| :: vs[i] == entries[keys[i]]
    {
      seq(|keys|, i requires 0 <= i < |keys| => entries[keys[i]])
    }
  }

  function EmptyDict<K(==,!new), V>(): (d: Dict<K, V>)
    ensures d.Valid() && d.keys == []
  {
    Dict([], map[])
  }
}
