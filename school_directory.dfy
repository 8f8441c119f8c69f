/**
 * The school directory: school name -> (school code, positional index),
 * built by one pass over the rows of the school table, and the single
 * attempt at resolving what the user typed (a code or a name) against it.
 */
module SchoolDirectory {
  import opened Wrappers

  /** One row of the school table: its "School Name" and "School Code" columns. */
  datatype Row = Row(name: string, code: string)

  /** What the directory holds for a name: `[school_code, count]` in the source. */
  datatype Entry = Entry(code: string, index: nat)

  type Directory = map<string, Entry>

  /** The distinct school names among `rows`. */
  function Names(rows: seq<Row>): set<string>
  {
    set i | 0 <= i < |rows| :: rows[i].name
  }

  /**
   * One step of the scan: a name not yet in the directory gets the row's
   * code and the next index (the running count, which is the number of
   * entries so far); a name already present is left alone.
   */
  function Record(dir: Directory, row: Row): Directory
  {
    if row.name in dir then dir else dir[row.name := Entry(row.code, |dir|)]
  }

  /** The directory the scan produces after the rows `rows`, in order. */
  function Build(rows: seq<Row>): (dir: Directory)
    ensures |dir| <= |rows|
  {
    if rows == [] then map[] else Record(Build(rows[..|rows| - 1]), rows[|rows| - 1])
  }

  /** The scan is a fold from the left: each further row is recorded into the directory built so far. */
  lemma BuildRecordsNextRow(rows: seq<Row>, row: Row)
    ensures Build(rows + [row]) == Record(Build(rows), row)
  {
    assert (rows + [row])[..|rows|] == rows;
  }

  lemma NamesOfPrefix(rows: seq<Row>)
    requires rows != []
    ensures Names(rows) == Names(rows[..|rows| - 1]) + {rows[|rows| - 1].name}
  {
    var prefix := rows[..|rows| - 1];
    assert forall i :: 0 <= i < |prefix| ==> prefix[i] == rows[i];
  }

  /** The directory has one entry per distinct name. */
  lemma {:induction false} BuildKeys(rows: seq<Row>)
    ensures Build(rows).Keys == Names(rows)
    ensures |Build(rows)| == |Names(rows)|
  {
    if rows != [] {
      BuildKeys(rows[..|rows| - 1]);
      NamesOfPrefix(rows);
    }
    assert |Build(rows)| == |Build(rows).Keys|;
  }

  /** The scan of the source, with the mutable dictionary and counter. */
  method BuildDirectory(rows: seq<Row>) returns (dir: Directory, count: nat)
    ensures dir == Build(rows)
    ensures count == |dir| == |Names(rows)|
  {
    dir := map[];
    count := 0;
    for i := 0 to |rows|
      invariant dir == Build(rows[..i])
      invariant count == |dir|
    {
      var row := rows[i];
      assert rows[..i + 1] == rows[..i] + [row];
      BuildRecordsNextRow(rows[..i], row);
      if row.name !in dir {
        dir := dir[row.name := Entry(row.code, count)];
        count := count + 1;
      }
    }
    assert rows[..|rows|] == rows;
    BuildKeys(rows);
  }

  /** Indices are pairwise distinct. */
  ghost predicate DistinctIndices(dir: Directory)
  {
    forall n, m :: n in dir && m in dir && dir[n].index == dir[m].index ==> n == m
  }

  /** The indices are exactly 0 .. |dir| - 1, each used by one name. */
  ghost predicate IndexedByPosition(dir: Directory)
  {
    && DistinctIndices(dir)
    && (forall n :: n in dir ==> dir[n].index < |dir|)
    && (forall k :: 0 <= k < |dir| ==> IndexUsed(dir, k))
  }

  ghost predicate IndexUsed(dir: Directory, k: nat)
  {
    exists n :: n in dir && dir[n].index == k
  }

  lemma RecordKeepsIndexedByPosition(dir: Directory, row: Row)
    requires IndexedByPosition(dir)
    ensures IndexedByPosition(Record(dir, row))
  {
    if row.name !in dir {
      var d := Record(dir, row);
      assert |d| == |dir| + 1;
      forall k | 0 <= k < |d| ensures IndexUsed(d, k) {
        if k < |dir| {
          assert IndexUsed(dir, k);
          var n :| n in dir && dir[n].index == k;
          assert n in d && d[n].index == k;
        } else {
          assert d[row.name].index == k;
        }
      }
    }
  }

  /** Every directory the scan builds numbers its schools 0 .. count - 1 without gaps or repeats. */
  lemma {:induction false} BuildIndexedByPosition(rows: seq<Row>)
    ensures IndexedByPosition(Build(rows))
  {
    if rows != [] {
      BuildIndexedByPosition(rows[..|rows| - 1]);
      RecordKeepsIndexedByPosition(Build(rows[..|rows| - 1]), rows[|rows| - 1]);
    }
  }

  /** Entries already made are never changed by the rows after them. */
  lemma {:induction false} BuildKeepsEntries(rows: seq<Row>, k: nat)
    requires k <= |rows|
    ensures forall n :: n in Build(rows[..k]) ==> n in Build(rows) && Build(rows)[n] == Build(rows[..k])[n]
  {
    if k < |rows| {
      var prefix := rows[..|rows| - 1];
      assert prefix[..k] == rows[..k];
      BuildKeepsEntries(prefix, k);
    } else {
      assert rows[..k] == rows;
    }
  }

  /**
   * The first row carrying a name fixes that name's entry: its code, and
   * as index the number of distinct names seen before it.
   */
  lemma FirstOccurrenceFixesEntry(rows: seq<Row>, i: nat)
    requires i < |rows|
    requires forall j :: 0 <= j < i ==> rows[j].name != rows[i].name
    ensures rows[i].name in Build(rows)
    ensures Build(rows)[rows[i].name] == Entry(rows[i].code, |Names(rows[..i])|)
  {
    var upTo := rows[..i + 1];
    assert upTo[..i] == rows[..i];
    assert rows[i].name !in Names(rows[..i]);
    BuildKeys(rows[..i]);
    assert Build(upTo)[rows[i].name] == Entry(rows[i].code, |Names(rows[..i])|);
    BuildKeepsEntries(rows, i + 1);
  }

  /** A later row repeating a name already seen has no effect on the directory. */
  lemma {:induction false} DuplicateRowIgnored(prefix: seq<Row>, row: Row, suffix: seq<Row>)
    requires row.name in Names(prefix)
    ensures Build(prefix + [row] + suffix) == Build(prefix + suffix)
  {
    var long := prefix + [row] + suffix;
    var short := prefix + suffix;
    if suffix == [] {
      assert long == prefix + [row] && short == prefix;
      BuildRecordsNextRow(prefix, row);
      BuildKeys(prefix);
    } else {
      var init := suffix[..|suffix| - 1];
      var last := suffix[|suffix| - 1];
      DuplicateRowIgnored(prefix, row, init);
      assert long == (prefix + [row] + init) + [last];
      assert short == (prefix + init) + [last];
      BuildRecordsNextRow(prefix + [row] + init, last);
      BuildRecordsNextRow(prefix + init, last);
    }
  }

  /** `name` is a school carrying `code` with the smallest index, i.e. the first one entered. */
  predicate FirstWithCode(dir: Directory, code: string, name: string)
  {
    && name in dir
    && dir[name].code == code
    && forall m :: m in dir && dir[m].code == code ==> dir[name].index <= dir[m].index
  }

  ghost predicate HasCode(dir: Directory, code: string)
  {
    exists n :: n in dir && dir[n].code == code
  }

  lemma {:induction false} FirstWithCodeFrom(dir: Directory, code: string, n: string)
    requires n in dir && dir[n].code == code
    ensures exists f :: FirstWithCode(dir, code, f)
    decreases dir[n].index
  {
    if exists m :: m in dir && dir[m].code == code && dir[m].index < dir[n].index {
      var m :| m in dir && dir[m].code == code && dir[m].index < dir[n].index;
      FirstWithCodeFrom(dir, code, m);
    } else {
      assert FirstWithCode(dir, code, n);
    }
  }

  lemma FirstWithCodeExists(dir: Directory, code: string)
    requires HasCode(dir, code)
    ensures exists f :: FirstWithCode(dir, code, f)
  {
    var n :| n in dir && dir[n].code == code;
    FirstWithCodeFrom(dir, code, n);
  }

  /**
   * One attempt at resolving user input to a (code, name) pair. A matching
   * code wins over a matching name; a code shared by several schools
   * resolves to the one entered first (dictionary order is insertion
   * order, which is index order). `None` is the invalid-input path.
   */
  function Resolve(dir: Directory, input: string): (r: Option<(string, string)>)
    requires DistinctIndices(dir)
    ensures r.None? <==> !HasCode(dir, input) && input !in dir
    ensures r.Some? ==> r.value.1 in dir && dir[r.value.1].code == r.value.0
    ensures HasCode(dir, input) ==> r.Some? && r.value.0 == input && FirstWithCode(dir, input, r.value.1)
    ensures !HasCode(dir, input) && input in dir ==> r == Some((dir[input].code, input))
  {
    if exists n :: n in dir && dir[n].code == input then
      FirstWithCodeExists(dir, input);
      var name :| name in dir && FirstWithCode(dir, input, name);
      Some((input, name))
    else if input in dir then
      Some((dir[input].code, input))
    else
      None
  }

  /**
   * With codes unique and no name spelled like a code, each school is
   * found both by its code and by its name.
   */
  lemma ResolveFindsEachSchool(dir: Directory, name: string)
    requires DistinctIndices(dir)
    requires forall n, m :: n in dir && m in dir && dir[n].code == dir[m].code ==> n == m
    requires !HasCode(dir, name)
    requires name in dir
    ensures Resolve(dir, dir[name].code) == Some((dir[name].code, name))
    ensures Resolve(dir, name) == Some((dir[name].code, name))
  {
  }
}
