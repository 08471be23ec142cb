/** Tables of a fixed number of entries, some of which are in use. */
module Tables {

  datatype Option<T> = None | Some(value: T)

  /** The first entry that is not in use, or the length of the table. */
  function FirstFree<T(==)>(table: seq<Option<T>>): (i: nat)
    ensures i <= |table| && (i < |table| ==> table[i] == None)
    ensures forall j :: 0 <= j < i ==> table[j] != None
  {
    if table == [] || table[0] == None then 0 else 1 + FirstFree(table[1..])
  }

  lemma FirstFreeIs<T>(table: seq<Option<T>>, i: nat)
    requires i <= |table| && (i < |table| ==> table[i] == None)
    requires forall j :: 0 <= j < i ==> table[j] != None
    ensures FirstFree(table) == i
  {}
}
