/** Building the `location_data` records from the lines of an instance file:
    a header line (the stop count), the depot's coordinates, then one line
    `x y service deadline` per stop.  Both readers, `read_instances` and
    `load_instance`, drop blank lines, synthesise the depot record
    `[x0, y0, 0, 0]` from the second line and copy every later line as one
    record.  Opening files and converting text to integers are outside the
    model: a line is given as its list of integer tokens, and a blank or
    whitespace-only line is the empty list. */
module Instances {

  /** One line of an instance file, as its integer tokens. */
  type Line = seq<int>

  /** One location: `[x, y, service_time, deadline]` (the depot has two
      zeros for the last two). */
  type Record = seq<int>

  /** The exceptions the readers can raise on malformed input. */
  datatype Error =
    | NoSuchLine       // IndexError: a line is indexed beyond the last non-blank one
    | WrongTokenCount  // ValueError: a line unpacked or converted with the wrong number of tokens

  datatype Result<T> = Ok(value: T) | Err(error: Error)

  /** `[line.strip() for line in f if line.strip()]`: the non-blank lines in
      file order. */
  function NonBlank(lines: seq<Line>): (r: seq<Line>)
    ensures forall k :: 0 <= k < |r| ==> r[k] != []
    ensures forall x :: x != [] ==> multiset(r)[x] == multiset(lines)[x]
    ensures |r| <= |lines|
  {
    if lines == [] then []
    else
      assert lines == [lines[0]] + lines[1..];
      (if lines[0] == [] then [] else [lines[0]]) + NonBlank(lines[1..])
  }

  /** Dropping blank lines keeps the order of the others: it distributes
      over concatenation. */
  lemma {:induction false} NonBlankAppend(a: seq<Line>, b: seq<Line>)
    ensures NonBlank(a + b) == NonBlank(a) + NonBlank(b)
  {
    if a == [] {
      assert a + b == b;
    } else {
      assert (a + b)[1..] == a[1..] + b;
      NonBlankAppend(a[1..], b);
    }
  }

  /** Lines with no blank among them are kept as they are. */
  lemma {:induction false} NonBlankKeepsClean(lines: seq<Line>)
    requires forall k :: 0 <= k < |lines| ==> lines[k] != []
    ensures NonBlank(lines) == lines
  {
    if lines != [] {
      NonBlankKeepsClean(lines[1..]);
    }
  }

  /** The lines can be turned into records: there is a second non-blank
      line and it holds exactly two integers. */
  predicate Loadable(lines: seq<Line>) {
    var ls := NonBlank(lines);
    |ls| >= 2 && |ls[1]| == 2
  }

  /** `r` is what the record building of the readers yields for `lines`:
      an `IndexError` without a second non-blank line, a `ValueError` when
      that line does not hold exactly two integers, and otherwise the depot
      record `[x0, y0, 0, 0]` followed by every non-blank line from the third
      on, unchanged and in order.  The header line is not read, so there is
      one record fewer than non-blank lines, and no copy of the depot is
      appended at the end. */
  predicate IsLocationData(lines: seq<Line>, r: Result<seq<Record>>) {
    var ls := NonBlank(lines);
    if |ls| < 2 then r == Err(NoSuchLine)
    else if |ls[1]| != 2 then r == Err(WrongTokenCount)
    else
      r.Ok? && |r.value| == |ls| - 1 &&
      r.value[0] == [ls[1][0], ls[1][1], 0, 0] &&
      forall k :: 1 <= k < |r.value| ==> r.value[k] == ls[k + 1]
  }

  /** `IsLocationData` fixes the result: any two readers that meet it give
      identical `location_data` on the same lines. */
  lemma SameLocationData(lines: seq<Line>, r1: Result<seq<Record>>, r2: Result<seq<Record>>)
    requires IsLocationData(lines, r1) && IsLocationData(lines, r2)
    ensures r1 == r2
  {
    var ls := NonBlank(lines);
    if Loadable(lines) {
      var d1, d2 := r1.value, r2.value;
      assert |d1| == |d2|;
      forall k | 0 <= k < |d1| ensures d1[k] == d2[k] {
      }
      assert d1 == d2;
    }
  }

  /** The record building inside `read_instances` for one file. */
  method BuildLocationData(lines: seq<Line>) returns (r: Result<seq<Record>>)
    ensures IsLocationData(lines, r)
    ensures r.Ok? <==> Loadable(lines)
  {
    var ls := NonBlank(lines);
    if |ls| < 2 {
      return Err(NoSuchLine);
    }
    if |ls[1]| != 2 {
      return Err(WrongTokenCount);
    }
    var x0, y0 := ls[1][0], ls[1][1];
    var data: seq<Record> := [[x0, y0, 0, 0]];
    for k := 2 to |ls|
      invariant |data| == k - 1
      invariant data[0] == [x0, y0, 0, 0]
      invariant forall j :: 1 <= j < |data| ==> data[j] == ls[j + 1]
    {
      data := data + [ls[k]];
    }
    return Ok(data);
  }

  /** `load_instance`: the same records as `read_instances`, except that the
      header line is first converted with `int(lines[0])`, which fails unless
      it holds exactly one integer.  The count it holds is never compared with
      the number of records. */
  method LoadInstance(lines: seq<Line>) returns (r: Result<seq<Record>>)
    ensures NonBlank(lines) == [] ==> r == Err(NoSuchLine)
    ensures NonBlank(lines) != [] && |NonBlank(lines)[0]| != 1 ==> r == Err(WrongTokenCount)
    ensures NonBlank(lines) != [] && |NonBlank(lines)[0]| == 1 ==> IsLocationData(lines, r)
  {
    var ls := NonBlank(lines);
    if |ls| == 0 {
      return Err(NoSuchLine);
    }
    if |ls[0]| != 1 {
      return Err(WrongTokenCount);
    }
    if |ls| < 2 {
      return Err(NoSuchLine);
    }
    if |ls[1]| != 2 {
      return Err(WrongTokenCount);
    }
    var data: seq<Record> := [[ls[1][0], ls[1][1], 0, 0]];
    var k := 2;
    while k < |ls|
      invariant 2 <= k <= |ls|
      invariant |data| == k - 1
      invariant data[0] == [ls[1][0], ls[1][1], 0, 0]
      invariant forall j :: 1 <= j < |data| ==> data[j] == ls[j + 1]
    {
      data := data + [ls[k]];
      k := k + 1;
    }
    return Ok(data);
  }

  /** An instance file after its name has been taken from its path. */
  datatype InstanceFile = InstanceFile(name: string, lines: seq<Line>)

  /** File `k` is the first that cannot be read, and it fails with `e`. */
  predicate FirstFailure(files: seq<InstanceFile>, k: int, e: Error) {
    0 <= k < |files| &&
    (forall j :: 0 <= j < k ==> Loadable(files[j].lines)) &&
    IsLocationData(files[k].lines, Err(e))
  }

  /** `read_instances`: every file in turn, in the order given, becomes a
      pair of its name and its records; the first file that cannot be read
      stops the whole call with its exception. */
  method ReadInstances(files: seq<InstanceFile>) returns (r: Result<seq<(string, seq<Record>)>>)
    ensures r.Ok? <==> forall k :: 0 <= k < |files| ==> Loadable(files[k].lines)
    ensures r.Ok? ==> |r.value| == |files|
    ensures r.Ok? ==> forall k :: 0 <= k < |files| ==>
      r.value[k].0 == files[k].name && IsLocationData(files[k].lines, Ok(r.value[k].1))
    ensures r.Err? ==> exists k :: FirstFailure(files, k, r.error)
  {
    var instances: seq<(string, seq<Record>)> := [];
    for k := 0 to |files|
      invariant |instances| == k
      invariant forall j :: 0 <= j < k ==> Loadable(files[j].lines)
      invariant forall j :: 0 <= j < k ==>
        instances[j].0 == files[j].name && IsLocationData(files[j].lines, Ok(instances[j].1))
    {
      var data := BuildLocationData(files[k].lines);
      if data.Err? {
        assert FirstFailure(files, k, data.error);
        return Err(data.error);
      }
      instances := instances + [(files[k].name, data.value)];
    }
    return Ok(instances);
  }

  /** `row[:2]`: the coordinates, or the whole row when it is shorter. */
  function Coordinates(row: Record): seq<int> {
    if |row| <= 2 then row else row[..2]
  }

  /** `is_last_point_depot`: false on an empty list, otherwise whether the
      first and last records share their coordinates. */
  function IsLastPointDepot(data: seq<Record>): (r: bool)
    ensures data == [] ==> !r
    ensures |data| == 1 ==> r
    ensures data != [] && |data[0]| >= 2 && |data[|data| - 1]| >= 2 ==>
      (r <==> data[0][0] == data[|data| - 1][0] && data[0][1] == data[|data| - 1][1])
  {
    if data == [] then false
    else Coordinates(data[0]) == Coordinates(data[|data| - 1])
  }

  /** Service time and deadline play no part: changing the fields after the
      coordinates of the last record does not change the answer. */
  lemma DepotCheckIgnoresTail(data: seq<Record>, tail: seq<int>)
    requires data != [] && |data[|data| - 1]| >= 2
    ensures IsLastPointDepot(data[|data| - 1 := data[|data| - 1][..2] + tail]) == IsLastPointDepot(data)
  {
    var last := data[|data| - 1];
    assert Coordinates(last[..2] + tail) == Coordinates(last);
  }

  /** On what the readers build, the check compares the last non-blank line's
      leading two integers with the depot line: since no depot copy is
      appended, it holds only when the file itself ends with the depot's
      coordinates (or has no stop line). */
  lemma DepotCheckOnLoaded(lines: seq<Line>, data: seq<Record>)
    requires IsLocationData(lines, Ok(data))
    ensures IsLastPointDepot(data) <==>
      Coordinates(NonBlank(lines)[|NonBlank(lines)| - 1]) == NonBlank(lines)[1]
  {
    var ls := NonBlank(lines);
    assert Coordinates(data[0]) == ls[1];
    if |ls| > 2 {
      assert data[|data| - 1] == ls[|ls| - 1];
    }
  }
}
