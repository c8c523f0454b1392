/** The record table of dm.c: a growable array of records with linear
    find-by-id and remove-by-id. */
module Table {
  import opened Records

  datatype Option<T> = None | Some(value: T)

  /** The index of the first record in `s` whose key is `id`, if there is one. */
  function FirstIndexOf(s: seq<Record>, id: int): (r: Option<nat>)
    ensures r.Some? ==> r.value < |s|
  {
    if s == [] then None
    else if s[0].id == id then Some(0)
    else match FirstIndexOf(s[1..], id)
      case None => None
      case Some(k) => Some(k + 1)
  }

  /** FirstIndexOf finds the lowest index holding key `id`, and finds nothing
      exactly when no record holds it. */
  lemma {:induction false} FirstIndexOfSpec(s: seq<Record>, id: int)
    ensures match FirstIndexOf(s, id)
      case Some(i) => i < |s| && s[i].id == id && forall j :: 0 <= j < i ==> s[j].id != id
      case None => forall j :: 0 <= j < |s| ==> s[j].id != id
  {
    if s != [] && s[0].id != id {
      FirstIndexOfSpec(s[1..], id);
      assert forall j :: 0 < j < |s| ==> s[j] == s[1..][j - 1];
    }
  }

  /** Searching `a + b` finds the first match in `a` if there is one, and
      otherwise the first match in `b`, shifted past `a`. */
  lemma {:induction false} FindInConcat(a: seq<Record>, b: seq<Record>, id: int)
    ensures FirstIndexOf(a + b, id) ==
      match FirstIndexOf(a, id)
      case Some(k) => Some(k)
      case None => (match FirstIndexOf(b, id) case None => None case Some(k) => Some(|a| + k))
  {
    if a == [] {
      assert a + b == b;
    } else {
      assert (a + b)[0] == a[0];
      if a[0].id != id {
        FindInConcat(a[1..], b, id);
        assert (a + b)[1..] == a[1..] + b;
      }
    }
  }

  /** Appending never hides an earlier match, and a key with no earlier match
      is found at the appended position. */
  lemma FindAfterAppend(s: seq<Record>, r: Record, id: int)
    ensures FirstIndexOf(s + [r], id) ==
      if FirstIndexOf(s, id).Some? then FirstIndexOf(s, id)
      else if r.id == id then Some(|s|)
      else None
  {
    FindInConcat(s, [r], id);
    assert [r][1..] == [];
  }

  /** A record with a different key in front shifts the match by one. */
  lemma FindBehindOther(r: Record, rest: seq<Record>, id: int)
    requires r.id != id
    ensures FirstIndexOf([r] + rest, id) ==
      match FirstIndexOf(rest, id) case None => None case Some(k) => Some(k + 1)
  {
    assert ([r] + rest)[1..] == rest;
  }

  /** Dropping a record with a different key from between `head` and `rest`
      moves a match behind it down by one and leaves any other result alone. */
  lemma FindWithoutOther(head: seq<Record>, r: Record, rest: seq<Record>, id: int)
    requires r.id != id
    ensures FirstIndexOf(head + rest, id) ==
      match FirstIndexOf(head + ([r] + rest), id)
      case None => None
      case Some(k) => Some(if k < |head| then k else k - 1)
  {
    FindBehindOther(r, rest, id);
    FindInConcat(head, [r] + rest, id);
    FindInConcat(head, rest, id);
  }

  /** Removing the record at `i` does not change which record a different key
      finds: its index moves down by one when it lay after `i`. */
  lemma FindAfterRemoveOther(s: seq<Record>, i: nat, id: int)
    requires i < |s| && s[i].id != id
    ensures FirstIndexOf(s[..i] + s[i + 1..], id) ==
      match FirstIndexOf(s, id)
      case None => None
      case Some(k) => Some(if k < i then k else k - 1)
  {
    var head, rest := s[..i], s[i + 1..];
    SplitAround(s, i);
    FindWithoutOther(head, s[i], rest, id);
  }

  /** A sequence is the part before position `i`, the element there and the rest. */
  lemma SplitAround(s: seq<Record>, i: nat)
    requires i < |s|
    ensures s == s[..i] + ([s[i]] + s[i + 1..])
  {
    assert s[i..] == [s[i]] + s[i + 1..];
    assert s == s[..i] + s[i..];
  }

  /** Dropping the record where the scan first finds `id` leaves the key
      findable exactly when a record behind it carries it too. */
  lemma FindWithoutFirst(head: seq<Record>, r: Record, rest: seq<Record>, id: int)
    requires FirstIndexOf(head + ([r] + rest), id) == Some(|head|)
    ensures FirstIndexOf(head + rest, id) ==
      match FirstIndexOf(rest, id)
      case None => None
      case Some(k) => Some(|head| + k)
  {
    FindInConcat(head, [r] + rest, id);
    FindInConcat(head, rest, id);
  }

  /** Removing the first record with key `id` leaves the key findable exactly
      when a later record carries it too, and then at that record's new index. */
  lemma FindAfterRemoveSame(s: seq<Record>, id: int)
    requires FirstIndexOf(s, id).Some?
    ensures var i := FirstIndexOf(s, id).value;
      FirstIndexOf(s[..i] + s[i + 1..], id) ==
        match FirstIndexOf(s[i + 1..], id)
        case None => None
        case Some(k) => Some(i + k)
  {
    var i := FirstIndexOf(s, id).value;
    SplitAround(s, i);
    FindWithoutFirst(s[..i], s[i], s[i + 1..], id);
  }

  /** Capacity before storing a record into a table holding `size` records in
      `capacity` slots: doubled when the table is full. */
  function Grown(size: nat, capacity: nat): (r: nat)
    ensures r == capacity || r == 2 * capacity
    ensures capacity <= r <= 2 * capacity
    ensures 0 < capacity && size <= capacity ==> size < r
  {
    if size >= capacity then 2 * capacity else capacity
  }

  /** Capacity after a removal has left `size` records in `capacity` slots:
      halved when the records left number fewer than `capacity / 4`, rounded
      down (that is, `4 * (size + 1) <= capacity`). */
  function Shrunk(size: nat, capacity: nat): (r: nat)
    ensures r <= capacity && (0 < capacity ==> 0 < r)
    ensures size <= capacity ==> size <= r
    ensures r < capacity ==> 2 <= r
  {
    if size < capacity / 4 then capacity / 2 else capacity
  }

  /** Capacity of a fresh table after `n` calls of Add. */
  function CapacityAfterAdds(n: nat): (r: nat)
    ensures 0 < r && n <= r
  {
    if n == 0 then InitialCapacity else Grown(n - 1, CapacityAfterAdds(n - 1))
  }

  /** `c` is InitialCapacity doubled zero or more times. */
  ghost predicate IsDoubledInitial(c: nat)
  {
    c == InitialCapacity || (c > InitialCapacity && c % 2 == 0 && IsDoubledInitial(c / 2))
  }

  /** After `n` appends to a fresh table the capacity is InitialCapacity doubled
      some number of times, holds all `n` records, and is the smallest such value. */
  lemma {:induction false} CapacityAfterAddsShape(n: nat)
    ensures var c := CapacityAfterAdds(n);
      n <= c && IsDoubledInitial(c) && (c == InitialCapacity || c / 2 < n)
  {
    if n > 0 {
      CapacityAfterAddsShape(n - 1);
      var c := CapacityAfterAdds(n - 1);
      if n - 1 >= c {
        assert (2 * c) / 2 == c;
      }
    }
  }

  class RecordTable {
    var records: array<Record>
    var size: nat
    var capacity: nat

    /** The table invariant: `capacity` slots are allocated, at least one,
        and the first `size` of them hold the records. */
    ghost predicate Valid()
      reads this
    {
      records.Length == capacity && 0 < capacity && size <= capacity
    }

    /** The records in the table, in table order. */
    ghost function Contents(): (s: seq<Record>)
      reads this, records
      requires Valid()
      ensures |s| == size
    {
      records[..size]
    }

    /** init_record_table: an empty table with InitialCapacity slots. */
    constructor ()
      ensures Valid() && fresh(records)
      ensures size == 0 && capacity == InitialCapacity && Contents() == []
    {
      size := 0;
      capacity := InitialCapacity;
      records := new Record[InitialCapacity];
    }

    /** resize_record_table: move the records into a fresh array of
        `newCapacity` slots (realloc never fails in this model). */
    method Resize(newCapacity: nat)
      requires Valid() && 0 < newCapacity && size <= newCapacity
      modifies this
      ensures Valid() && fresh(records)
      ensures capacity == newCapacity && size == old(size)
      ensures Contents() == old(Contents())
    {
      var moved := new Record[newCapacity];
      var i := 0;
      while i < size
        modifies moved
        invariant Valid() && size <= moved.Length == newCapacity
        invariant 0 <= i <= size
        invariant moved[..i] == records[..i]
      {
        moved[i] := records[i];
        i := i + 1;
      }
      records := moved;
      capacity := newCapacity;
    }

    /** add_record: append `r`, doubling the capacity first when the table is full. */
    method Add(r: Record)
      requires Valid()
      modifies this, records
      ensures Valid() && (records == old(records) || fresh(records))
      ensures capacity == Grown(old(size), old(capacity))
      ensures size == old(size) + 1
      ensures Contents() == old(Contents()) + [r]
    {
      if size >= capacity {
        Resize(capacity * 2);
      }
      records[size] := r;
      size := size + 1;
    }

    /** find_record_by_id: the index of the first record whose key is `id`,
        or None; the table is left as it was. */
    method Find(id: int) returns (index: Option<nat>)
      requires Valid()
      ensures index == FirstIndexOf(Contents(), id)
    {
      var i := 0;
      while i < size
        invariant 0 <= i <= size
        invariant forall j :: 0 <= j < i ==> records[j].id != id
      {
        if records[i].id == id {
          ghost var s := Contents();
          FirstIndexOfSpec(s, id);
          assert s[i].id == id;
          assert FirstIndexOf(s, id).Some? && FirstIndexOf(s, id).value >= i;
          return Some(i);
        }
        i := i + 1;
      }
      FirstIndexOfSpec(Contents(), id);
      return None;
    }

    /** The shifting loop of remove_record_by_id: every record after slot `i`
        moves one slot to the left, so slot `i` is overwritten. */
    method CloseGap(i: nat)
      requires Valid() && i < size
      modifies records
      ensures records[..size - 1] == old(records[..size])[..i] + old(records[..size])[i + 1..]
    {
      ghost var before := records[..size];
      var j := i;
      while j < size - 1
        invariant i <= j <= size - 1
        invariant forall k :: 0 <= k < i ==> records[k] == before[k]
        invariant forall k :: i <= k < j ==> records[k] == before[k + 1]
        invariant forall k :: j < k < size ==> records[k] == before[k]
      {
        records[j] := records[j + 1];
        j := j + 1;
      }
      ghost var after := before[..i] + before[i + 1..];
      assert forall k :: 0 <= k < size - 1 ==> records[k] == after[k];
    }

    /** remove_record_by_id: delete the first record whose key is `id`,
        closing the gap, then halve the capacity when the records left number
        fewer than `capacity / 4`, rounded down. */
    method Remove(id: int) returns (removed: bool)
      requires Valid()
      modifies this, records
      ensures Valid() && (records == old(records) || fresh(records))
      ensures removed <==> FirstIndexOf(old(Contents()), id).Some?
      ensures !removed ==> size == old(size) && capacity == old(capacity) && Contents() == old(Contents())
      ensures removed ==>
        var i := FirstIndexOf(old(Contents()), id).value;
        Contents() == old(Contents())[..i] + old(Contents())[i + 1..] &&
        size == old(size) - 1 &&
        capacity == Shrunk(size, old(capacity))
    {
      ghost var s := Contents();
      FirstIndexOfSpec(s, id);
      var i := 0;
      while i < size
        invariant Valid() && size == old(size) && capacity == old(capacity) && records == old(records)
        invariant 0 <= i <= size
        invariant forall j :: 0 <= j < i ==> s[j].id != id
        invariant records[..size] == s
      {
        if records[i].id == id {
          assert FirstIndexOf(s, id) == Some(i);
          CloseGap(i);
          size := size - 1;
          assert Contents() == s[..i] + s[i + 1..];
          if size < capacity / 4 {
            Resize(capacity / 2);
          }
          return true;
        }
        i := i + 1;
      }
      return false;
    }
  }

  /** Where keys 2 and 9 are found among records keyed 1, 2 and 9, and among
      records keyed 1 and 2. */
  lemma SessionKeys(r1: Record, r2: Record, r9: Record)
    requires r1.id == 1 && r2.id == 2 && r9.id == 9
    ensures FirstIndexOf([r1, r2, r9], 2) == Some(1)
    ensures FirstIndexOf([r1, r2, r9], 9) == Some(2)
    ensures FirstIndexOf([r1, r2], 9) == None
  {
    assert [r1, r2, r9][1..] == [r2, r9] && [r2, r9][1..] == [r9] && [r9][1..] == [];
    assert [r1, r2][1..] == [r2] && [r2][1..] == [];
    assert FirstIndexOf([r9], 9) == Some(0);
    assert FirstIndexOf([r2, r9], 9) == Some(1);
  }

  /** main's `find(2)` and `remove(9)` on a table loaded with records keyed
      1, 2 and 9: key 2 is found at index 1, the removal succeeds and leaves
      two records. A repeated `remove(9)`, which main does not make, then
      fails. */
  method MainSession(r1: Record, r2: Record, r9: Record)
    returns (found: Option<nat>, first: bool, second: bool, size: nat)
    requires r1.id == 1 && r2.id == 2 && r9.id == 9
    ensures found == Some(1) && first && !second && size == 2
  {
    var table := Load([r1, r2, r9]);
    SessionKeys(r1, r2, r9);
    found := table.Find(2);
    first := table.Remove(9);
    assert [r1, r2, r9][..2] + [r1, r2, r9][3..] == [r1, r2];
    second := table.Remove(9);
    size := table.size;
  }

  /** Emptying a table of two records shrinks its capacity below
      InitialCapacity: 10, then 5, then 2. */
  method DrainSession(r1: Record, r2: Record) returns (capacities: seq<nat>)
    ensures capacities == [InitialCapacity, 5, 2]
  {
    var table := new RecordTable();
    table.Add(r1);
    table.Add(r2);
    assert table.Contents() == [r1, r2];
    capacities := [table.capacity];
    var removed := table.Remove(r1.id);
    assert table.Contents() == [r2];
    capacities := capacities + [table.capacity];
    removed := table.Remove(r2.id);
    capacities := capacities + [table.capacity];
  }

  /** The loading loop of read_csv, one Add per parsed line: a new table
      filled with `rs` holds them in order, and its capacity is the one
      CapacityAfterAdds predicts, InitialCapacity doubled just often enough. */
  method Load(rs: seq<Record>) returns (table: RecordTable)
    ensures fresh(table) && fresh(table.records) && table.Valid()
    ensures table.size == |rs| && table.Contents() == rs
    ensures table.capacity == CapacityAfterAdds(|rs|)
    ensures |rs| <= table.capacity && IsDoubledInitial(table.capacity)
  {
    table := new RecordTable();
    var i := 0;
    while i < |rs|
      invariant 0 <= i <= |rs|
      invariant fresh(table) && fresh(table.records) && table.Valid()
      invariant table.size == i && table.capacity == CapacityAfterAdds(i)
      invariant table.Contents() == rs[..i]
    {
      table.Add(rs[i]);
      assert rs[..i + 1] == rs[..i] + [rs[i]];
      i := i + 1;
    }
    assert rs[..i] == rs;
    CapacityAfterAddsShape(|rs|);
  }
}
