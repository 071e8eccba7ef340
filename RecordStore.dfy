/**
 The list operations the record store performs on one category's entries:
 the indexed assignment of the edit path and the index filter of delete.
 */
module RecordStore {

  /**
   `entries[index] = x` on a copy of the list. Assigning at the length of a
   JavaScript array appends; assigning further out would leave holes, which
   callers exclude.
   */
  function ReplaceAt<T>(entries: seq<T>, index: nat, x: T): (r: seq<T>)
    requires index <= |entries|
    ensures |r| == if index < |entries| then |entries| else |entries| + 1
    ensures r[index] == x
    ensures forall j :: 0 <= j < |entries| && j != index ==> r[j] == entries[j]
  {
    if index < |entries| then entries[index := x] else entries + [x]
  }

  /**
   `entries.filter((_, i) => i !== index)`: keeps every entry whose position
   differs from `index`, in order. An index outside the list removes nothing.
   */
  function Without<T>(entries: seq<T>, index: int): (r: seq<T>)
    ensures 0 <= index < |entries| ==> |r| == |entries| - 1 && r == entries[..index] + entries[index + 1..]
    ensures !(0 <= index < |entries|) ==> r == entries
  {
    if entries == [] then []
    else (if index == 0 then [] else [entries[0]]) + Without(entries[1..], index - 1)
  }

  /** Every entry left after a removal was in the list before. */
  lemma WithoutSubset<T>(entries: seq<T>, index: int)
    ensures forall x :: x in Without(entries, index) ==> x in entries
  {
    var r := Without(entries, index);
    if 0 <= index < |entries| {
      forall x | x in r ensures x in entries {
        var j :| 0 <= j < |r| && r[j] == x;
        if j < index { assert r[j] == entries[j]; } else { assert r[j] == entries[j + 1]; }
      }
    }
  }
}
