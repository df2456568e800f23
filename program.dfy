/**
 * The console program: reading and validating integers, collecting the
 * salaries, laying out the result and deciding whether to run another round.
 *
 * Console input is a sequence of lines and `int.TryParse` is the parameter
 * `parse`; console output is returned as values (the rejections shown to
 * the user, the cells printed by the presenter).
 */
module Program {

  import opened Wrappers
  import opened CSharpInt
  import Statistics

  /** `MIN_VALUE` in `ReadInt`: the least number of salaries accepted. */
  const MinCount: int := 2

  /** `COLUMN_COUNT` in `ViewResult`. */
  const ColumnCount: int := 3

  // ---------------------------------------------------------------------
  // Continue or stop
  // ---------------------------------------------------------------------

  /** A key read at the "continue?" prompt. */
  datatype Key = Escape | OtherKey(code: nat)

  /** Another round follows unless the key is Escape. */
  function IsContinuing(key: Key): (r: bool)
    ensures r <==> key != Escape
  {
    if key.Escape? then false else true
  }

  // ---------------------------------------------------------------------
  // Reading one integer
  // ---------------------------------------------------------------------

  /** The two prompts `ReadInt` is called with; only the count prompt
      enforces the minimum count. */
  datatype Prompt = Count | Salary

  /** Why a line was turned down, in the order the checks are made. */
  datatype Rejection =
    | NotParsed(input: string)
    | CountTooSmall
    | SalaryNegative

  datatype Verdict = Accept(value: Int32) | Reject(reason: Rejection)

  /** The checks one line goes through: parse failure first, then a count
      below the minimum (count prompt only), then a negative value. */
  function Classify(prompt: Prompt, line: string, parse: string -> Option<Int32>): (v: Verdict)
    ensures v.Accept? <==>
      parse(line).Some? && parse(line).value >= 0 &&
      (prompt == Count ==> parse(line).value >= MinCount)
    ensures v.Accept? ==> v.value == parse(line).value
    ensures v == Reject(NotParsed(line)) <==> parse(line).None?
    ensures v == Reject(CountTooSmall) <==>
      prompt == Count && parse(line).Some? && parse(line).value < MinCount
    ensures v == Reject(SalaryNegative) <==>
      prompt.Salary? && parse(line).Some? && parse(line).value < 0
  {
    match parse(line)
    case None => Reject(NotParsed(line))
    case Some(n) =>
      if n < MinCount && prompt == Count then Reject(CountTooSmall)
      else if n < 0 then Reject(SalaryNegative)
      else Accept(n)
  }

  /** How a call of `ReadInt` ends on a finite input. `Read`: the value of
      the accepted line, the number of lines read (that line included) and
      one rejection per line before it. `InputEnded`: every line was
      rejected; the program would go on prompting. */
  datatype Reading =
    | Read(value: Int32, consumed: nat, rejections: seq<Rejection>)
    | InputEnded(rejections: seq<Rejection>)

  /** The retry loop: prompt, read a line, and either accept it or show its
      rejection and prompt again. */
  method ReadInt(prompt: Prompt, lines: seq<string>, parse: string -> Option<Int32>)
    returns (r: Reading)
    ensures r.Read? <==>
      exists k :: 0 <= k < |lines| && Classify(prompt, lines[k], parse).Accept?
    ensures r.Read? ==>
      1 <= r.consumed <= |lines| &&
      Classify(prompt, lines[r.consumed - 1], parse) == Accept(r.value) &&
      |r.rejections| == r.consumed - 1
    ensures r.Read? ==> r.value >= 0 && (prompt == Count ==> r.value >= MinCount)
    ensures r.InputEnded? ==> |r.rejections| == |lines|
    ensures forall k :: 0 <= k < |r.rejections| ==>
      Classify(prompt, lines[k], parse) == Reject(r.rejections[k])
  {
    var rejections: seq<Rejection> := [];
    var i := 0;
    while i < |lines|
      invariant 0 <= i <= |lines|
      invariant |rejections| == i
      invariant forall k :: 0 <= k < i ==>
        Classify(prompt, lines[k], parse) == Reject(rejections[k])
    {
      match Classify(prompt, lines[i], parse) {
        case Accept(n) =>
          return Read(n, i + 1, rejections);
        case Reject(reason) =>
          rejections := rejections + [reason];
      }
      i := i + 1;
    }
    return InputEnded(rejections);
  }

  // ---------------------------------------------------------------------
  // Collecting the salaries
  // ---------------------------------------------------------------------

  /** The values of the lines a salary prompt accepts, in input order. */
  function AcceptedSalaries(lines: seq<string>, parse: string -> Option<Int32>): (r: seq<Int32>)
    ensures |r| <= |lines|
    ensures forall i :: 0 <= i < |r| ==> r[i] >= 0
  {
    if lines == [] then
      []
    else
      var head := match Classify(Salary, lines[0], parse)
        case Accept(n) => [n]
        case Reject(_) => [];
      head + AcceptedSalaries(lines[1..], parse)
  }

  lemma {:induction false} AcceptedSalariesAppend(a: seq<string>, b: seq<string>, parse: string -> Option<Int32>)
    ensures AcceptedSalaries(a + b, parse) == AcceptedSalaries(a, parse) + AcceptedSalaries(b, parse)
  {
    if a == [] {
      assert a + b == b;
    } else {
      assert (a + b)[0] == a[0];
      assert (a + b)[1..] == a[1..] + b;
      AcceptedSalariesAppend(a[1..], b, parse);
    }
  }

  lemma {:induction false} AcceptedSalariesNone(lines: seq<string>, parse: string -> Option<Int32>)
    requires forall k :: 0 <= k < |lines| ==> Classify(Salary, lines[k], parse).Reject?
    ensures AcceptedSalaries(lines, parse) == []
  {
    if lines != [] {
      AcceptedSalariesNone(lines[1..], parse);
    }
  }

  lemma AcceptedSalariesSingle(line: string, parse: string -> Option<Int32>, v: Int32)
    requires Classify(Salary, line, parse) == Accept(v)
    ensures AcceptedSalaries([line], parse) == [v]
  {
    assert [line][1..] == [];
  }

  /** A run of rejected lines closed by an accepted one contributes exactly
      the accepted value. */
  lemma {:induction false} AcceptedSalariesOne(lines: seq<string>, parse: string -> Option<Int32>, v: Int32)
    requires |lines| > 0
    requires forall k :: 0 <= k < |lines| - 1 ==> Classify(Salary, lines[k], parse).Reject?
    requires Classify(Salary, lines[|lines| - 1], parse) == Accept(v)
    ensures AcceptedSalaries(lines, parse) == [v]
  {
    if |lines| == 1 {
      assert lines == [lines[0]];
      AcceptedSalariesSingle(lines[0], parse, v);
    } else {
      var rest := lines[1..];
      assert forall k :: 0 <= k < |rest| - 1 ==> rest[k] == lines[k + 1];
      AcceptedSalariesOne(rest, parse, v);
      assert Classify(Salary, lines[0], parse).Reject?;
    }
  }

  /** The salaries read from `lines[..pos]` extended by one call of
      `ReadInt` that accepted `v` after reading `consumed` more lines. */
  lemma AcceptedSalariesStep(lines: seq<string>, parse: string -> Option<Int32>,
                             pos: nat, consumed: nat, v: Int32)
    requires 1 <= consumed && pos + consumed <= |lines|
    requires forall k :: 0 <= k < consumed - 1 ==> Classify(Salary, lines[pos..][k], parse).Reject?
    requires Classify(Salary, lines[pos..][consumed - 1], parse) == Accept(v)
    ensures AcceptedSalaries(lines[..pos + consumed], parse) == AcceptedSalaries(lines[..pos], parse) + [v]
  {
    var next := pos + consumed;
    var segment := lines[pos..next];
    assert lines[..next] == lines[..pos] + segment;
    AcceptedSalariesAppend(lines[..pos], segment, parse);
    assert forall k :: 0 <= k < consumed ==> segment[k] == lines[pos..][k];
    AcceptedSalariesOne(segment, parse, v);
  }

  /** All of `lines` is the salaries read from `lines[..pos]` followed by
      those of the rest. */
  lemma AcceptedSalariesSplit(lines: seq<string>, parse: string -> Option<Int32>, pos: nat)
    requires pos <= |lines|
    ensures AcceptedSalaries(lines, parse) ==
      AcceptedSalaries(lines[..pos], parse) + AcceptedSalaries(lines[pos..], parse)
  {
    assert lines == lines[..pos] + lines[pos..];
    AcceptedSalariesAppend(lines[..pos], lines[pos..], parse);
  }

  /** The rejections a salary prompt shows, one per refused line, in input
      order. A salary prompt never reports a count that is too small. */
  function SalaryRejections(lines: seq<string>, parse: string -> Option<Int32>): (r: seq<Rejection>)
    ensures |r| <= |lines|
    ensures forall i :: 0 <= i < |r| ==> r[i] != CountTooSmall
  {
    if lines == [] then
      []
    else
      var head := match Classify(Salary, lines[0], parse)
        case Accept(_) => []
        case Reject(reason) => [reason];
      head + SalaryRejections(lines[1..], parse)
  }

  /** Every line read at a salary prompt is either accepted or shown as
      refused, never both and never neither. */
  lemma {:induction false} AcceptedOrRejected(lines: seq<string>, parse: string -> Option<Int32>)
    ensures |AcceptedSalaries(lines, parse)| + |SalaryRejections(lines, parse)| == |lines|
  {
    if lines != [] {
      AcceptedOrRejected(lines[1..], parse);
    }
  }

  lemma {:induction false} SalaryRejectionsAppend(a: seq<string>, b: seq<string>, parse: string -> Option<Int32>)
    ensures SalaryRejections(a + b, parse) == SalaryRejections(a, parse) + SalaryRejections(b, parse)
  {
    if a == [] {
      assert a + b == b;
    } else {
      assert (a + b)[0] == a[0];
      assert (a + b)[1..] == a[1..] + b;
      SalaryRejectionsAppend(a[1..], b, parse);
    }
  }

  /** Lines that are all refused show exactly their rejections. */
  lemma {:induction false} SalaryRejectionsAll(lines: seq<string>, parse: string -> Option<Int32>, rs: seq<Rejection>)
    requires |rs| == |lines|
    requires forall k :: 0 <= k < |lines| ==> Classify(Salary, lines[k], parse) == Reject(rs[k])
    ensures SalaryRejections(lines, parse) == rs
  {
    if lines != [] {
      SalaryRejectionsAll(lines[1..], parse, rs[1..]);
      assert rs == [rs[0]] + rs[1..];
    }
  }

  /** The rejections shown up to `lines[..pos]` extended by one call of
      `ReadInt` that read `consumed` more lines and accepted the last. */
  lemma SalaryRejectionsStep(lines: seq<string>, parse: string -> Option<Int32>,
                             pos: nat, consumed: nat, rs: seq<Rejection>)
    requires 1 <= consumed && pos + consumed <= |lines| && |rs| == consumed - 1
    requires forall k :: 0 <= k < consumed - 1 ==> Classify(Salary, lines[pos..][k], parse) == Reject(rs[k])
    requires Classify(Salary, lines[pos..][consumed - 1], parse).Accept?
    ensures SalaryRejections(lines[..pos + consumed], parse) == SalaryRejections(lines[..pos], parse) + rs
  {
    var next := pos + consumed;
    var refused := lines[pos..next - 1];
    assert lines[..next] == lines[..pos] + refused + [lines[next - 1]];
    SalaryRejectionsAppend(lines[..pos] + refused, [lines[next - 1]], parse);
    SalaryRejectionsAppend(lines[..pos], refused, parse);
    assert forall k :: 0 <= k < consumed - 1 ==> refused[k] == lines[pos..][k];
    SalaryRejectionsAll(refused, parse, rs);
    assert lines[next - 1] == lines[pos..][consumed - 1];
    assert SalaryRejections([lines[next - 1]], parse) == [];
  }

  /** What has been collected once `lines[..pos]` are read: the salaries
      `done` and the rejections `shown`, the last line read being an accepted
      one as soon as any salary has been read. */
  ghost predicate SalariesSoFar(lines: seq<string>, parse: string -> Option<Int32>,
                                pos: nat, done: seq<Int32>, shown: seq<Rejection>)
  {
    pos <= |lines| &&
    done == AcceptedSalaries(lines[..pos], parse) &&
    shown == SalaryRejections(lines[..pos], parse) &&
    (done != [] ==> 0 < pos && Classify(Salary, lines[pos - 1], parse).Accept?)
  }

  /** One call of `ReadInt` that accepted a salary extends the collection by
      that salary and the rejections shown before it. */
  lemma SalariesSoFarStep(lines: seq<string>, parse: string -> Option<Int32>,
                          pos: nat, done: seq<Int32>, shown: seq<Rejection>, r: Reading)
    requires SalariesSoFar(lines, parse, pos, done, shown)
    requires r.Read? && 1 <= r.consumed <= |lines[pos..]| && |r.rejections| == r.consumed - 1
    requires Classify(Salary, lines[pos..][r.consumed - 1], parse) == Accept(r.value)
    requires forall k :: 0 <= k < |r.rejections| ==>
      Classify(Salary, lines[pos..][k], parse) == Reject(r.rejections[k])
    ensures SalariesSoFar(lines, parse, pos + r.consumed, done + [r.value], shown + r.rejections)
  {
    AcceptedSalariesStep(lines, parse, pos, r.consumed, r.value);
    SalaryRejectionsStep(lines, parse, pos, r.consumed, r.rejections);
    assert lines[pos + r.consumed - 1] == lines[pos..][r.consumed - 1];
  }

  /** Lines that are all refused after `lines[..pos]` add no salary. */
  lemma AcceptedSalariesEnd(lines: seq<string>, parse: string -> Option<Int32>, pos: nat)
    requires pos <= |lines|
    requires forall k :: 0 <= k < |lines[pos..]| ==> Classify(Salary, lines[pos..][k], parse).Reject?
    ensures AcceptedSalaries(lines, parse) == AcceptedSalaries(lines[..pos], parse)
  {
    AcceptedSalariesSplit(lines, parse, pos);
    AcceptedSalariesNone(lines[pos..], parse);
  }

  /** Lines that are all refused after `lines[..pos]` show their
      rejections after the earlier ones. */
  lemma SalaryRejectionsEnd(lines: seq<string>, parse: string -> Option<Int32>,
                            pos: nat, rs: seq<Rejection>)
    requires pos <= |lines| && |rs| == |lines[pos..]|
    requires forall k :: 0 <= k < |rs| ==> Classify(Salary, lines[pos..][k], parse) == Reject(rs[k])
    ensures SalaryRejections(lines[..|lines|], parse) == SalaryRejections(lines[..pos], parse) + rs
  {
    assert lines == lines[..pos] + lines[pos..];
    SalaryRejectionsAppend(lines[..pos], lines[pos..], parse);
    SalaryRejectionsAll(lines[pos..], parse, rs);
    assert lines[..|lines|] == lines;
  }

  /** One call of `ReadInt` that refused every remaining line adds no salary
      and shows one rejection per remaining line. */
  lemma SalariesSoFarEnd(lines: seq<string>, parse: string -> Option<Int32>,
                         pos: nat, done: seq<Int32>, shown: seq<Rejection>, rs: seq<Rejection>)
    requires SalariesSoFar(lines, parse, pos, done, shown)
    requires |rs| == |lines[pos..]|
    requires forall k :: 0 <= k < |rs| ==> Classify(Salary, lines[pos..][k], parse) == Reject(rs[k])
    ensures AcceptedSalaries(lines, parse) == done
    ensures SalaryRejections(lines[..|lines|], parse) == shown + rs
  {
    AcceptedSalariesEnd(lines, parse, pos);
    SalaryRejectionsEnd(lines, parse, pos, rs);
  }

  /** The salaries collected so far are the first ones of all the lines. */
  lemma SalariesSoFarPrefix(lines: seq<string>, parse: string -> Option<Int32>,
                            pos: nat, done: seq<Int32>, shown: seq<Rejection>)
    requires SalariesSoFar(lines, parse, pos, done, shown)
    ensures |AcceptedSalaries(lines, parse)| >= |done|
    ensures AcceptedSalaries(lines, parse)[..|done|] == done
  {
    AcceptedSalariesSplit(lines, parse, pos);
    assert AcceptedSalaries(lines, parse) == done + AcceptedSalaries(lines[pos..], parse);
  }

  /** Fills a fresh array of `count` salaries, one validated salary per
      slot, in input order, and collects the rejection shown for every
      refused line. `complete` is false when the input ends first; the
      program would then still be waiting for a salary. */
  method ReadSalaries(count: nat, lines: seq<string>, parse: string -> Option<Int32>)
    returns (salaries: array<Int32>, complete: bool, consumed: nat, rejections: seq<Rejection>)
    ensures fresh(salaries) && salaries.Length == count
    ensures consumed <= |lines|
    ensures complete <==> |AcceptedSalaries(lines, parse)| >= count
    ensures complete ==> salaries[..] == AcceptedSalaries(lines, parse)[..count]
    ensures complete ==> AcceptedSalaries(lines[..consumed], parse) == salaries[..]
    ensures complete && count > 0 ==>
      1 <= consumed && Classify(Salary, lines[consumed - 1], parse).Accept?
    ensures !complete ==> consumed == |lines|
    ensures rejections == SalaryRejections(lines[..consumed], parse)
    ensures forall i :: 0 <= i < count ==> salaries[i] >= 0
  {
    salaries := new Int32[count](_ => 0);
    rejections := [];
    var pos: nat := 0;
    var i := 0;
    ghost var done: seq<Int32> := [];
    assert lines[..0] == [];
    while i < count
      invariant 0 <= i <= count && pos <= |lines|
      invariant salaries[..i] == done
      invariant SalariesSoFar(lines, parse, pos, done, rejections)
      invariant forall k :: 0 <= k < count ==> salaries[k] >= 0
    {
      var r := ReadInt(Salary, lines[pos..], parse);
      if r.InputEnded? {
        SalariesSoFarEnd(lines, parse, pos, done, rejections, r.rejections);
        return salaries, false, |lines|, rejections + r.rejections;
      }
      SalariesSoFarStep(lines, parse, pos, done, rejections, r);
      salaries[i] := r.value;
      assert salaries[..i + 1] == done + [r.value];
      rejections, done := rejections + r.rejections, done + [r.value];
      pos, i := pos + r.consumed, i + 1;
    }
    assert salaries[..] == salaries[..count];
    SalariesSoFarPrefix(lines, parse, pos, salaries[..], rejections);
    return salaries, true, pos, rejections;
  }

  // ---------------------------------------------------------------------
  // Presenting the result
  // ---------------------------------------------------------------------

  datatype Statistic = MedianSalary | DispersionSalary

  /** What the presenter writes: a labelled statistic, one salary in its
      column, or a line break. */
  datatype Print =
    | Summary(statistic: Statistic, amount: int)
    | Value(salary: Int32)
    | LineBreak

  function Cells(v: seq<Int32>): (r: seq<Print>)
    ensures |r| == |v|
    ensures forall i :: 0 <= i < |v| ==> r[i] == Value(v[i])
  {
    seq(|v|, i requires 0 <= i < |v| => Value(v[i]))
  }

  /** Complete rows: every group of `ColumnCount` values followed by a break. */
  function FullRows(v: seq<Int32>): seq<Print>
    requires |v| % ColumnCount == 0
  {
    if v == [] then [] else Cells(v[..ColumnCount]) + [LineBreak] + FullRows(v[ColumnCount..])
  }

  /** The listing of the salaries: the complete rows, the values of the last
      incomplete row, and a closing line break. */
  function Layout(v: seq<Int32>): (r: seq<Print>)
    ensures |r| > 0 && r[|r| - 1] == LineBreak
  {
    var full := |v| - |v| % ColumnCount;
    FullRows(v[..full]) + Cells(v[full..]) + [LineBreak]
  }

  /** The header block: the median and the dispersion as the program
      computes them; the average is not modelled. */
  function Header(v: seq<Int32>): (r: seq<Print>)
    requires |v| > 0
    ensures |r| == 2 && r[0].Summary? && r[1].Summary?
    ensures r[0].statistic == MedianSalary && r[1].statistic == DispersionSalary
  {
    [Summary(MedianSalary, Statistics.Median(v)),
     Summary(DispersionSalary, Statistics.Dispersion(v))]
  }

  /** For salaries whose pairwise sums fit in an `int` the header shows the
      intended median, which lies between the least and the greatest
      salary. */
  lemma HeaderWithoutOverflow(v: seq<Int32>)
    requires |v| > 0 && Statistics.PairwiseSumsFit(v)
    ensures Header(v)[0].amount == Statistics.MedianExact(v)
    ensures Statistics.Min(v) <= Header(v)[0].amount <= Statistics.Max(v)
  {
    Statistics.MedianWithinRange(v);
  }

  lemma {:induction false} FullRowsAppend(w: seq<Int32>, x: seq<Int32>)
    requires |w| % ColumnCount == 0 && |x| == ColumnCount
    ensures FullRows(w + x) == FullRows(w) + Cells(x) + [LineBreak]
  {
    if w == [] {
      assert w + x == x;
    } else {
      assert (w + x)[..ColumnCount] == w[..ColumnCount];
      assert (w + x)[ColumnCount..] == w[ColumnCount..] + x;
      FullRowsAppend(w[ColumnCount..], x);
    }
  }

  lemma {:induction false} FullRowsLength(w: seq<Int32>)
    requires |w| % ColumnCount == 0
    ensures |FullRows(w)| == |w| + |w| / ColumnCount
  {
    if w != [] {
      FullRowsLength(w[ColumnCount..]);
    }
  }

  /** Moving one row down: index `i` of a listing is index `i - 3` of the
      listing that starts one row later. */
  lemma NextRowIndex(i: int)
    requires i >= 3
    ensures i + i / 3 == (i - 3) + (i - 3) / 3 + 4
    ensures (i + 1) % 3 == 0 <==> (i - 2) % 3 == 0
  {
  }

  /** The complete rows are the first row, its line break, and the rows
      after it. */
  lemma FullRowsFirst(w: seq<Int32>)
    requires |w| % ColumnCount == 0 && |w| >= ColumnCount
    ensures FullRows(w) == Cells(w[..3]) + [LineBreak] + FullRows(w[3..])
    ensures |Cells(w[..3]) + [LineBreak]| == 4
  {
  }

  /** Where salary `i` of the complete rows stands, and whether a line
      break follows it. */
  lemma {:induction false} FullRowsAt(w: seq<Int32>, i: int)
    requires |w| % ColumnCount == 0 && 0 <= i < |w|
    ensures |FullRows(w)| == |w| + |w| / ColumnCount
    ensures FullRows(w)[i + i / 3] == Value(w[i])
    ensures FullRows(w)[i + i / 3 + 1] == LineBreak <==> (i + 1) % 3 == 0
  {
    FullRowsLength(w);
    FullRowsFirst(w);
    var rest := w[3..];
    var f := FullRows(w);
    var head := Cells(w[..3]) + [LineBreak];
    FullRowsLength(rest);
    if i < 3 {
      assert f[i + i / 3] == head[i];
      assert f[i + i / 3 + 1] == head[i + 1];
    } else {
      var j := i - 3;
      FullRowsAt(rest, j);
      NextRowIndex(i);
      var p := j + j / 3;
      assert w[i] == rest[j];
      assert f[p + 4] == FullRows(rest)[p];
      assert f[p + 5] == FullRows(rest)[p + 1];
    }
  }

  /** The listing puts salary `i` at position `i + i / 3`, in input order;
      a line break follows it exactly when `(i + 1) % 3 == 0` or when it is
      the last salary, and the listing ends with one extra line break. */
  lemma LayoutShape(v: seq<Int32>)
    ensures |Layout(v)| == |v| + |v| / 3 + 1
    ensures Layout(v)[|Layout(v)| - 1] == LineBreak
    ensures forall i :: 0 <= i < |v| ==> Layout(v)[i + i / 3] == Value(v[i])
    ensures forall i :: 0 <= i < |v| ==>
      (Layout(v)[i + i / 3 + 1] == LineBreak <==> (i + 1) % 3 == 0 || i == |v| - 1)
  {
    var n := |v|;
    var q := n - n % 3;
    var w, tail := v[..q], v[q..];
    FullRowsLength(w);
    var l := Layout(v);
    assert l == FullRows(w) + Cells(tail) + [LineBreak];
    assert |FullRows(w)| == q + q / 3;
    assert q / 3 == n / 3;
    forall i | 0 <= i < n
      ensures l[i + i / 3] == Value(v[i])
      ensures l[i + i / 3 + 1] == LineBreak <==> (i + 1) % 3 == 0 || i == n - 1
    {
      if i < q {
        FullRowsAt(w, i);
        assert w[i] == v[i];
        assert l[i + i / 3] == FullRows(w)[i + i / 3];
        if i + 1 < q {
          assert l[i + i / 3 + 1] == FullRows(w)[i + i / 3 + 1];
        } else {
          assert i + i / 3 + 1 == q + q / 3 - 1;
          assert l[i + i / 3 + 1] == FullRows(w)[i + i / 3 + 1];
        }
      } else {
        assert i / 3 == q / 3;
        assert l[i + i / 3] == Cells(tail)[i - q];
        assert tail[i - q] == v[i];
      }
    }
  }

  /** What the salary loop has printed after its first `i` iterations. */
  ghost function Printed(v: seq<Int32>, i: nat): seq<Print>
    requires i <= |v|
  {
    FullRows(v[..i - i % ColumnCount]) + Cells(v[i - i % ColumnCount..i])
  }

  /** Where the row of value `i` starts, before and after value `i`. */
  lemma RowStart(i: nat)
    ensures 0 <= i - i % 3 <= i
    ensures (i + 1) % 3 == 0 ==> i - i % 3 == i - 2 && (i + 1) - (i + 1) % 3 == i + 1
    ensures (i + 1) % 3 != 0 ==> (i + 1) - (i + 1) % 3 == i - i % 3
  {
  }

  lemma PrintedStep(v: seq<Int32>, i: nat)
    requires i < |v|
    ensures Printed(v, i + 1) ==
      Printed(v, i) + [Value(v[i])] + (if (i + 1) % ColumnCount == 0 then [LineBreak] else [])
  {
    var q := i - i % ColumnCount;
    RowStart(i);
    assert Cells(v[q..i]) + [Value(v[i])] == Cells(v[q..i + 1]);
    if (i + 1) % ColumnCount == 0 {
      assert v[..i + 1] == v[..q] + v[q..i + 1];
      FullRowsAppend(v[..q], v[q..i + 1]);
      assert Cells(v[i + 1..i + 1]) == [];
      assert Printed(v, i + 1) == FullRows(v[..i + 1]) + Cells(v[i + 1..i + 1]);
    } else {
      assert Printed(v, i + 1) == FullRows(v[..q]) + Cells(v[q..i + 1]);
    }
  }

  /** The presenter: the header, then every salary in input order, with a
      line break after every `ColumnCount`-th one and a final line break. */
  method ViewResult(salaries: array<Int32>) returns (out: seq<Print>)
    requires salaries.Length > 0
    ensures out == Header(salaries[..]) + Layout(salaries[..])
  {
    ghost var v := salaries[..];
    var rows: seq<Print> := [];
    var i := 0;
    while i < salaries.Length
      invariant 0 <= i <= salaries.Length
      invariant rows == Printed(v, i)
    {
      PrintedStep(v, i);
      rows := rows + [Value(salaries[i])];
      if (i + 1) % ColumnCount == 0 {
        rows := rows + [LineBreak];
      }
      i := i + 1;
    }
    assert v[..i] == v;
    assert Printed(v, i) + [LineBreak] == Layout(v);
    out := Header(salaries[..]) + rows + [LineBreak];
  }

  /** Four salaries are listed as one full row of three and a row of one. */
  lemma LayoutExample()
    ensures Layout([10, 20, 30, 40]) ==
      [Value(10), Value(20), Value(30), LineBreak, Value(40), LineBreak]
  {
    var v: seq<Int32> := [10, 20, 30, 40];
    assert v[..3] == [10, 20, 30] && v[3..] == [40];
    assert FullRows(v[..3]) == Cells([10, 20, 30]) + [LineBreak] + FullRows([]);
  }
}
