/** Unique partition lookup (src/partitions.rs).

    The partition table is the sequence of rows the partition-table crate's
    iterator yields, each either an entry or a read error. A lookup scans it
    once and succeeds only if exactly one entry matches the selector. */
module Partitions {
  import opened OtaErrors

  datatype AppKind = Factory | OtaSlot(slot: nat) | TestApp
  datatype DataKind = OtaData | PhyData | NvsData | OtherData(subtype: nat)
  datatype PartitionType = App(app: AppKind) | Data(data: DataKind)

  /** One partition-table entry; `name` is what the entry's `name()` yields. */
  datatype Entry = Entry(partType: PartitionType, name: string, offset: nat, size: nat)

  type TableRow = Result<Entry, StorageOpError>

  /** What a lookup compares: the entry's type (find_partition_by_type) or
      its name (find_partition_by_name). */
  datatype Selector = ByType(wanted: PartitionType) | ByName(wantedName: string)

  predicate Matches(e: Entry, sel: Selector)
  {
    match sel
    case ByType(t) => e.partType == t
    case ByName(n) => e.name == n
  }

  predicate IsMatch(row: TableRow, sel: Selector)
  {
    row.Ok? && Matches(row.value, sel)
  }

  /** Position of the first erroring row, or |rows| if every row is an entry. */
  function FirstError(rows: seq<TableRow>): (k: nat)
    ensures k <= |rows|
    ensures forall i :: 0 <= i < k ==> rows[i].Ok?
    ensures k < |rows| ==> rows[k].Err?
  {
    if |rows| == 0 then 0
    else if rows[0].Err? then 0
    else 1 + FirstError(rows[1..])
  }

  /** Number of entries among `rows` that match the selector. */
  function CountMatches(rows: seq<TableRow>, sel: Selector): nat
  {
    if |rows| == 0 then 0
    else CountMatches(rows[..|rows| - 1], sel) + (if IsMatch(rows[|rows| - 1], sel) then 1 else 0)
  }

  /** Position of the first matching entry, or |rows| if there is none. */
  function FirstMatch(rows: seq<TableRow>, sel: Selector): (k: nat)
    ensures k <= |rows|
    ensures k < |rows| ==> IsMatch(rows[k], sel)
    ensures forall i :: 0 <= i < k ==> !IsMatch(rows[i], sel)
    ensures k < |rows| <==> CountMatches(rows, sel) > 0
  {
    if |rows| == 0 then 0
    else
      var f := FirstMatch(rows[..|rows| - 1], sel);
      assert forall i :: 0 <= i < |rows| - 1 ==> rows[..|rows| - 1][i] == rows[i];
      if f < |rows| - 1 then f
      else if IsMatch(rows[|rows| - 1], sel) then |rows| - 1
      else |rows|
  }

  /** The outcome of a lookup, stated by counting: the scan stops at the
      first erroring row or at the second match, whichever comes first;
      after a complete scan it needs exactly one match. */
  function Lookup(table: seq<TableRow>, sel: Selector): Result<Entry, InternalError>
  {
    var k := FirstError(table);
    if CountMatches(table[..k], sel) >= 2 then Err(PartitionFoundTwice)
    else if k < |table| then Err(StorageOp(table[k].error))
    else if CountMatches(table, sel) == 0 then Err(PartitionNotFound)
    else Ok(table[FirstMatch(table, sel)].value)
  }

  /** The scan of find_partition_by_type / find_partition_by_name, with the
      mutable `found_partition` accumulator and its two early returns. */
  method FindPartition(table: seq<TableRow>, sel: Selector) returns (r: Result<Entry, InternalError>)
    ensures r == Lookup(table, sel)
  {
    var found: Option<Entry> := None;
    var i := 0;
    while i < |table|
      invariant 0 <= i <= |table|
      invariant forall j :: 0 <= j < i ==> table[j].Ok?
      invariant CountMatches(table[..i], sel) <= 1
      invariant found == if CountMatches(table[..i], sel) == 0 then None
                         else Some(table[FirstMatch(table[..i], sel)].value)
    {
      CountSnoc(table, i, sel);
      assert table[..i + 1][..i] == table[..i];
      match table[i] {
        case Err(e) =>
          LookupErrorFirst(table, i, sel);
          return Err(StorageOp(e));
        case Ok(entry) =>
          if Matches(entry, sel) {
            if found.None? {
              found := Some(entry);
            } else {
              LookupStopsAtSecondMatch(table, i + 1, sel);
              return Err(PartitionFoundTwice);
            }
          }
      }
      i := i + 1;
    }
    LookupComplete(table, sel);
    assert table[..i] == table;
    match found {
      case None => r := Err(PartitionNotFound);
      case Some(e) => r := Ok(e);
    }
  }

  /** find_partition_by_type: the entry whose type equals `typ`. */
  method FindPartitionByType(table: seq<TableRow>, typ: PartitionType) returns (r: Result<Entry, InternalError>)
    ensures r == Lookup(table, ByType(typ))
    ensures r.Ok? ==> r.value.partType == typ && Ok(r.value) in table
  {
    r := FindPartition(table, ByType(typ));
    LookupOkIsUnique(table, ByType(typ));
  }

  /** find_partition_by_name: the entry whose name equals `name`. */
  method FindPartitionByName(table: seq<TableRow>, name: string) returns (r: Result<Entry, InternalError>)
    ensures r == Lookup(table, ByName(name))
    ensures r.Ok? ==> r.value.name == name && Ok(r.value) in table
  {
    r := FindPartition(table, ByName(name));
    LookupOkIsUnique(table, ByName(name));
  }

  // ---------------------------------------------------------------------
  // Counting facts

  /** Extending a prefix by one row adds that row's match. */
  lemma CountSnoc(rows: seq<TableRow>, i: nat, sel: Selector)
    requires i < |rows|
    ensures CountMatches(rows[..i + 1], sel) == CountMatches(rows[..i], sel) + (if IsMatch(rows[i], sel) then 1 else 0)
  {
    assert rows[..i + 1][..i] == rows[..i];
  }

  lemma {:induction false} CountPrefixMonotone(rows: seq<TableRow>, a: nat, b: nat, sel: Selector)
    requires a <= b <= |rows|
    ensures CountMatches(rows[..a], sel) <= CountMatches(rows[..b], sel)
    decreases b
  {
    if a < b {
      assert rows[..b][..b - 1] == rows[..b - 1];
      CountPrefixMonotone(rows, a, b - 1, sel);
    }
  }

  lemma {:induction false} CountConcat(a: seq<TableRow>, b: seq<TableRow>, sel: Selector)
    ensures CountMatches(a + b, sel) == CountMatches(a, sel) + CountMatches(b, sel)
    decreases |b|
  {
    if |b| == 0 {
      assert a + b == a;
    } else {
      assert (a + b)[..|a + b| - 1] == a + b[..|b| - 1];
      CountConcat(a, b[..|b| - 1], sel);
    }
  }

  lemma {:induction false} CountZero(rows: seq<TableRow>, sel: Selector)
    ensures CountMatches(rows, sel) == 0 <==> forall i :: 0 <= i < |rows| ==> !IsMatch(rows[i], sel)
    decreases |rows|
  {
    if |rows| > 0 {
      var init := rows[..|rows| - 1];
      CountZero(init, sel);
      assert forall i :: 0 <= i < |init| ==> init[i] == rows[i];
    }
  }

  /** With exactly one match, the first match is the only one. */
  lemma CountOneUnique(rows: seq<TableRow>, sel: Selector)
    requires CountMatches(rows, sel) == 1
    ensures FirstMatch(rows, sel) < |rows|
    ensures forall j :: 0 <= j < |rows| && j != FirstMatch(rows, sel) ==> !IsMatch(rows[j], sel)
  {
    var f := FirstMatch(rows, sel);
    var rest := rows[f + 1..];
    assert CountMatches(rest, sel) == 0 by {
      CountZero(rows[..f], sel);
      CountSnoc(rows, f, sel);
      CountConcat(rows[..f + 1], rest, sel);
      assert rows[..f + 1] + rest == rows;
    }
    forall j | f < j < |rows| ensures !IsMatch(rows[j], sel) {
      CountZero(rest, sel);
      assert rest[j - f - 1] == rows[j];
    }
  }

  // ---------------------------------------------------------------------
  // What a lookup promises

  /** A lookup succeeds exactly when no row errors and exactly one entry
      matches; the result is that entry and no other entry matches. */
  lemma LookupOkIsUnique(table: seq<TableRow>, sel: Selector)
    ensures Lookup(table, sel).Ok? <==>
              (forall i :: 0 <= i < |table| ==> table[i].Ok?) && CountMatches(table, sel) == 1
    ensures Lookup(table, sel).Ok? ==>
              Matches(Lookup(table, sel).value, sel) &&
              exists i :: 0 <= i < |table| && table[i] == Ok(Lookup(table, sel).value) &&
                forall j :: 0 <= j < |table| && j != i ==> !IsMatch(table[j], sel)
  {
    var k := FirstError(table);
    if forall i :: 0 <= i < |table| ==> table[i].Ok? {
      assert k == |table|;
      assert table[..k] == table;
    }
    if Lookup(table, sel).Ok? {
      assert table[..k] == table;
      CountOneUnique(table, sel);
      var f := FirstMatch(table, sel);
      assert table[f] == Ok(Lookup(table, sel).value);
    }
  }

  /** PartitionNotFound exactly when every row is an entry and none matches. */
  lemma LookupNotFound(table: seq<TableRow>, sel: Selector)
    ensures Lookup(table, sel) == Err(PartitionNotFound) <==>
              forall i :: 0 <= i < |table| ==> table[i].Ok? && !Matches(table[i].value, sel)
  {
    var k := FirstError(table);
    CountZero(table, sel);
    if forall i :: 0 <= i < |table| ==> table[i].Ok? {
      assert k == |table|;
      assert table[..k] == table;
    }
  }

  /** Once the scan has seen two matches with no error before them, the
      outcome is PartitionFoundTwice whatever follows. */
  lemma LookupStopsAtSecondMatch(table: seq<TableRow>, i: nat, sel: Selector)
    requires i <= |table|
    requires forall j :: 0 <= j < i ==> table[j].Ok?
    requires CountMatches(table[..i], sel) >= 2
    ensures Lookup(table, sel) == Err(PartitionFoundTwice)
  {
    CountPrefixMonotone(table, i, FirstError(table), sel);
  }

  /** An erroring row reached before a second match aborts the lookup with
      that error, even when a match was already found. */
  lemma LookupErrorFirst(table: seq<TableRow>, i: nat, sel: Selector)
    requires i < |table| && table[i].Err?
    requires forall j :: 0 <= j < i ==> table[j].Ok?
    requires CountMatches(table[..i], sel) <= 1
    ensures Lookup(table, sel) == Err(StorageOp(table[i].error))
  {
    FirstErrorUnique(table, i);
  }

  /** A table without erroring rows is scanned to its end. */
  lemma LookupComplete(table: seq<TableRow>, sel: Selector)
    requires forall j :: 0 <= j < |table| ==> table[j].Ok?
    ensures FirstError(table) == |table|
    ensures Lookup(table, sel) ==
              if CountMatches(table, sel) >= 2 then Err(PartitionFoundTwice)
              else if CountMatches(table, sel) == 0 then Err(PartitionNotFound)
              else Ok(table[FirstMatch(table, sel)].value)
  {
    FirstErrorUnique(table, |table|);
    assert table[..|table|] == table;
  }

  /** `t` is `table` with `row` inserted before position `i`. */
  predicate IsInsertion(t: seq<TableRow>, table: seq<TableRow>, i: nat, row: TableRow)
  {
    && i <= |table| && |t| == |table| + 1 && t[i] == row
    && (forall j :: 0 <= j < i ==> t[j] == table[j])
    && (forall j :: i < j < |t| ==> t[j] == table[j - 1])
  }

  /** Inserting an entry that does not match anywhere in the table leaves the
      outcome of the lookup unchanged. */
  lemma LookupIgnoresNonMatching(table: seq<TableRow>, t: seq<TableRow>, i: nat, e: Entry, sel: Selector)
    requires IsInsertion(t, table, i, Ok(e))
    requires !Matches(e, sel)
    ensures Lookup(t, sel) == Lookup(table, sel)
  {
    var k := FirstError(table);
    FirstErrorInsert(table, t, i, e);
    if k < i {
      InsertAfterError(table, t, i, e, sel);
    } else if k < |table| {
      InsertBeforeError(table, t, i, e, sel);
    } else {
      InsertIntoCompleteTable(table, t, i, e, sel);
    }
  }

  /** An entry inserted after the first erroring row is never reached. */
  lemma InsertAfterError(table: seq<TableRow>, t: seq<TableRow>, i: nat, e: Entry, sel: Selector)
    requires IsInsertion(t, table, i, Ok(e))
    requires FirstError(table) < i
    requires FirstError(t) == FirstError(table)
    ensures Lookup(t, sel) == Lookup(table, sel)
  {
    var k := FirstError(table);
    assert t[..k] == table[..k];
    assert t[k] == table[k];
  }

  /** A non-matching entry inserted before the first erroring row shifts the
      error by one and leaves the count before it unchanged. */
  lemma InsertBeforeError(table: seq<TableRow>, t: seq<TableRow>, i: nat, e: Entry, sel: Selector)
    requires IsInsertion(t, table, i, Ok(e))
    requires i <= FirstError(table) < |table|
    requires !Matches(e, sel)
    requires FirstError(t) == FirstError(table) + 1
    ensures Lookup(t, sel) == Lookup(table, sel)
  {
    var k := FirstError(table);
    CountInsert(table, t, i, e, k, sel);
    assert t[k + 1] == table[k];
  }

  /** In a table without erroring rows, a non-matching entry changes neither
      the count nor which entry matches first. */
  lemma InsertIntoCompleteTable(table: seq<TableRow>, t: seq<TableRow>, i: nat, e: Entry, sel: Selector)
    requires IsInsertion(t, table, i, Ok(e))
    requires FirstError(table) == |table|
    requires !Matches(e, sel)
    requires FirstError(t) == |t|
    ensures Lookup(t, sel) == Lookup(table, sel)
  {
    var k := |table|;
    var c := CountMatches(table, sel);
    assert CountMatches(t[..|t|], sel) == c && CountMatches(t, sel) == c by {
      CountInsert(table, t, i, e, k, sel);
      assert t[..k + 1] == t;
      assert table[..k] == table;
    }
    assert CountMatches(table[..k], sel) == c by {
      assert table[..k] == table;
    }
    if c == 1 {
      var f := FirstMatch(table, sel);
      FirstMatchInsert(table, t, i, e, sel);
      var g := if f < i then f else f + 1;
      assert t[g] == table[f];
      assert Lookup(t, sel) == Ok(table[f].value);
    }
  }

  lemma FirstErrorInsert(table: seq<TableRow>, t: seq<TableRow>, i: nat, e: Entry)
    requires IsInsertion(t, table, i, Ok(e))
    ensures var k := FirstError(table);
            FirstError(t) == if k < i then k else k + 1
  {
    var k := FirstError(table);
    if k >= i {
      FirstErrorUnique(t, k + 1);
    } else {
      FirstErrorUnique(t, k);
    }
  }

  /** FirstError is determined by its postcondition. */
  lemma FirstErrorUnique(rows: seq<TableRow>, k: nat)
    requires k <= |rows|
    requires forall j :: 0 <= j < k ==> rows[j].Ok?
    requires k < |rows| ==> rows[k].Err?
    ensures FirstError(rows) == k
  {
  }

  /** FirstMatch is determined by its postcondition. */
  lemma FirstMatchUnique(rows: seq<TableRow>, k: nat, sel: Selector)
    requires k <= |rows|
    requires forall j :: 0 <= j < k ==> !IsMatch(rows[j], sel)
    requires k < |rows| ==> IsMatch(rows[k], sel)
    ensures FirstMatch(rows, sel) == k
  {
  }

  lemma FirstMatchInsert(table: seq<TableRow>, t: seq<TableRow>, i: nat, e: Entry, sel: Selector)
    requires IsInsertion(t, table, i, Ok(e))
    requires !Matches(e, sel)
    ensures var f := FirstMatch(table, sel);
            FirstMatch(t, sel) == if f < i then f else f + 1
  {
    var f := FirstMatch(table, sel);
    if f >= i {
      FirstMatchUnique(t, f + 1, sel);
    } else {
      FirstMatchUnique(t, f, sel);
    }
  }

  /** Past the insertion point, the inserted non-matching entry adds nothing
      to the count. */
  lemma {:induction false} CountInsert(table: seq<TableRow>, t: seq<TableRow>, i: nat, e: Entry, k: nat, sel: Selector)
    requires IsInsertion(t, table, i, Ok(e))
    requires i <= k <= |table|
    requires !Matches(e, sel)
    ensures CountMatches(t[..k + 1], sel) == CountMatches(table[..k], sel)
    decreases k
  {
    CountSnoc(t, k, sel);
    if k == i {
      assert t[..k] == table[..k];
    } else {
      CountInsert(table, t, i, e, k - 1, sel);
      CountSnoc(table, k - 1, sel);
      assert t[k] == table[k - 1];
    }
  }
}
