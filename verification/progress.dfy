/**
 The progress text printed while the elements of one file are serialised: a dot
 after every fifth element and a line with the running count after every 500th.
 */
module Progress {

  /** One piece of progress output: "." or " <count>\n". */
  datatype Mark = Dot | CountLine(count: nat)

  /** What is printed right after the counter has been raised to `counter`. */
  function Tick(counter: nat): seq<Mark>
  {
    (if counter % 5 == 0 then [Dot] else []) + (if counter % 500 == 0 then [CountLine(counter)] else [])
  }

  /** Everything printed while the counter goes from 0 up to `n`. */
  function ProgressMarks(n: nat): seq<Mark>
  {
    if n == 0 then [] else ProgressMarks(n - 1) + Tick(n)
  }

  function DotCount(ms: seq<Mark>): nat
  {
    if |ms| == 0 then 0 else DotCount(ms[..|ms| - 1]) + (if ms[|ms| - 1].Dot? then 1 else 0)
  }

  /** The counts shown on the count lines, in order. */
  function CountsShown(ms: seq<Mark>): seq<nat>
  {
    if |ms| == 0 then []
    else CountsShown(ms[..|ms| - 1]) + (if ms[|ms| - 1].CountLine? then [ms[|ms| - 1].count] else [])
  }

  /** 500, 1000, ..., 500 * m. */
  function Multiples(m: nat): (r: seq<nat>)
    ensures |r| == m
  {
    seq(m, k requires 0 <= k < m => 500 * (k + 1))
  }

  lemma MultiplesSnoc(m: nat)
    ensures Multiples(m + 1) == Multiples(m) + [500 * (m + 1)]
  {
    var a := Multiples(m + 1);
    var b := Multiples(m) + [500 * (m + 1)];
    assert forall k :: 0 <= k < m ==> a[k] == b[k];
  }

  lemma {:induction false} DotCountAppend(a: seq<Mark>, b: seq<Mark>)
    ensures DotCount(a + b) == DotCount(a) + DotCount(b)
    decreases |b|
  {
    if |b| > 0 {
      var n := |b| - 1;
      assert (a + b)[..|a + b| - 1] == a + b[..n];
      DotCountAppend(a, b[..n]);
    } else {
      assert a + b == a;
    }
  }

  lemma {:induction false} CountsShownAppend(a: seq<Mark>, b: seq<Mark>)
    ensures CountsShown(a + b) == CountsShown(a) + CountsShown(b)
    decreases |b|
  {
    if |b| > 0 {
      var n := |b| - 1;
      assert (a + b)[..|a + b| - 1] == a + b[..n];
      CountsShownAppend(a, b[..n]);
    } else {
      assert a + b == a;
    }
  }

  /** The marks of one tick: a dot on multiples of 5, a count line on multiples of 500. */
  lemma TickContents(n: nat)
    ensures DotCount(Tick(n)) == (if n % 5 == 0 then 1 else 0)
    ensures CountsShown(Tick(n)) == (if n % 500 == 0 then [n] else [])
  {
    var dot: seq<Mark> := if n % 5 == 0 then [Dot] else [];
    var line: seq<Mark> := if n % 500 == 0 then [CountLine(n)] else [];
    DotCountAppend(dot, line);
    CountsShownAppend(dot, line);
    assert dot == [] || dot[..0] == [];
    assert line == [] || line[..0] == [];
  }

  lemma DivStep(n: nat)
    requires n > 0
    ensures n / 5 == (n - 1) / 5 + (if n % 5 == 0 then 1 else 0)
    ensures n / 500 == (n - 1) / 500 + (if n % 500 == 0 then 1 else 0)
    ensures n % 500 == 0 ==> n == 500 * ((n - 1) / 500 + 1)
  {
  }

  /** After `n` elements exactly n / 5 dots have been printed. */
  lemma {:induction false} DotsAfter(n: nat)
    ensures DotCount(ProgressMarks(n)) == n / 5
  {
    if n > 0 {
      DotsAfter(n - 1);
      DotCountAppend(ProgressMarks(n - 1), Tick(n));
      TickContents(n);
      DivStep(n);
    }
  }

  /** After `n` elements the count lines shown are 500, 1000, ..., up to n / 500 of them. */
  lemma {:induction false} CountLinesAfter(n: nat)
    ensures CountsShown(ProgressMarks(n)) == Multiples(n / 500)
  {
    if n > 0 {
      CountLinesAfter(n - 1);
      CountsShownAppend(ProgressMarks(n - 1), Tick(n));
      TickContents(n);
      DivStep(n);
      if n % 500 == 0 {
        CountLineStep(CountsShown(ProgressMarks(n - 1)), (n - 1) / 500);
      } else {
        assert CountsShown(ProgressMarks(n - 1)) + [] == CountsShown(ProgressMarks(n - 1));
      }
    }
  }

  lemma CountLineStep(shown: seq<nat>, m: nat)
    requires shown == Multiples(m)
    ensures shown + [500 * (m + 1)] == Multiples(m + 1)
  {
    MultiplesSnoc(m);
  }

  /**
   The serialisation loop of one file as written: a do-while whose body runs once
   and then once more for every successful `next()`; the counter and the progress
   text only move when the log level is not quiet.
   */
  method ReportProgress(advances: nat, loglevel: int) returns (counter: nat, marks: seq<Mark>)
    ensures counter == (if loglevel >= 0 then advances + 1 else 0)
    ensures marks == (if loglevel >= 0 then ProgressMarks(advances + 1) else [])
    ensures DotCount(marks) == counter / 5
    ensures CountsShown(marks) == Multiples(counter / 500)
  {
    counter := 0;
    marks := [];
    var taken := 0;
    while taken < advances + 1
      invariant taken <= advances + 1
      invariant counter == (if loglevel >= 0 then taken else 0)
      invariant marks == (if loglevel >= 0 then ProgressMarks(taken) else [])
    {
      taken := taken + 1;
      if loglevel >= 0 {
        counter := counter + 1;
        if counter % 5 == 0 {
          marks := marks + [Dot];
        }
        if counter % 500 == 0 {
          marks := marks + [CountLine(counter)];
        }
      }
    }
    DotsAfter(counter);
    CountLinesAfter(counter);
  }
}
