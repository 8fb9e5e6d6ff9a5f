/**
 * The in-memory thrust log `dataLog`: CSV text that starts with a fixed header
 * and gains one row `<time>,<weight to 4 places>\n` per sample.  `ParseLog` is
 * the reader a client of `/download` would apply; the round-trip lemma shows
 * that the text identifies the samples exactly, in order.
 */
module CsvLog {
  import opened Optional
  import opened Decimal
  import opened Clock

  /** One reading: the `millis()` value it was taken at and the weight in ten-thousandths of a kg. */
  datatype Sample = Sample(time: Millis, weight: int)

  /** The first line of every log. */
  const Header: string := "Time (ms),Weight (kg)\n"

  /** A row without its line break: the time, a comma, the weight to four places. */
  function Line(x: Sample): (l: string)
    ensures forall i :: 0 <= i < |l| ==> IsDigit(l[i]) || l[i] in ",-."
    ensures |l| >= 8 && l[|l| - 5] == '.'
  {
    var t, w := NatToString(x.time), Fmt4(x.weight);
    assert forall i :: 0 <= i < |t| ==> IsDigit(t[i]);
    assert forall i :: 0 <= i < |w| ==> IsDigit(w[i]) || w[i] == '-' || w[i] == '.';
    t + "," + w
  }

  /** The row one sample appends to the log. */
  function Row(x: Sample): (r: string)
    ensures |r| >= 9 && r[|r| - 1] == '\n'
    ensures forall i :: 0 <= i < |r| - 1 ==> r[i] != '\n'
  {
    Line(x) + "\n"
  }

  /** The rows of a sequence of samples, in order. */
  function Rows(ss: seq<Sample>): string {
    if ss == [] then "" else Row(ss[0]) + Rows(ss[1..])
  }

  /** The full log text after the samples `ss`. */
  function LogText(ss: seq<Sample>): string {
    Header + Rows(ss)
  }

  /** Appending one sample's row extends the rows by exactly that row. */
  lemma {:induction false} RowsAppend(ss: seq<Sample>, x: Sample)
    ensures Rows(ss + [x]) == Rows(ss) + Row(x)
  {
    if ss == [] {
      assert [x][1..] == [];
    } else {
      assert (ss + [x])[1..] == ss[1..] + [x];
      RowsAppend(ss[1..], x);
    }
  }

  /** Appending one sample extends the log by exactly its row. */
  lemma LogAppend(ss: seq<Sample>, x: Sample)
    ensures LogText(ss + [x]) == LogText(ss) + Row(x)
  {
    RowsAppend(ss, x);
  }

  /** Index of the first `c` in `s`, or `|s|` when there is none. */
  function IndexOf(s: string, c: char): (k: nat)
    ensures k <= |s|
    ensures k < |s| ==> s[k] == c
    ensures forall i :: 0 <= i < k ==> s[i] != c
  {
    if s == [] then 0 else if s[0] == c then 0 else 1 + IndexOf(s[1..], c)
  }

  /** `s` has no `c` in it. */
  predicate Lacks(s: string, c: char) {
    forall i :: 0 <= i < |s| ==> s[i] != c
  }

  /** Splitting at the first `c` recovers what stood on either side of it. */
  lemma SplitAtFirst(a: string, c: char, b: string)
    requires Lacks(a, c)
    ensures IndexOf(a + [c] + b, c) == |a|
    ensures (a + [c] + b)[..|a|] == a && (a + [c] + b)[|a| + 1..] == b
  {
    var s := a + [c] + b;
    assert s[|a|] == c;
  }

  /** Reads one row (without its line break) back into a sample. */
  function ParseRow(line: string): Option<Sample> {
    var k := IndexOf(line, ',');
    if k == |line| then None
    else
      match (ParseNat(line[..k]), ParseFixed4(line[k + 1..]))
      case (Some(t), Some(w)) => if t < Modulus then Some(Sample(t, w)) else None
      case _ => None
  }

  /** Reads a sequence of newline-terminated rows. */
  function ParseRows(s: string): Option<seq<Sample>>
    decreases |s|
  {
    if s == [] then Some([])
    else
      var k := IndexOf(s, '\n');
      if k == |s| then None
      else
        match (ParseRow(s[..k]), ParseRows(s[k + 1..]))
        case (Some(x), Some(rest)) => Some([x] + rest)
        case _ => None
  }

  /** Reads a whole log: the header, then the rows. */
  function ParseLog(s: string): Option<seq<Sample>> {
    if |s| >= |Header| && s[..|Header|] == Header then ParseRows(s[|Header|..]) else None
  }

  /** A row's line has no line break in it, and reads back as the sample it was written from. */
  lemma LineParses(x: Sample)
    ensures Lacks(Line(x), '\n')
    ensures ParseRow(Line(x)) == Some(x)
  {
    var t := NatToString(x.time);
    var w := Fmt4(x.weight);
    assert Line(x) == t + [','] + w;
    assert Lacks(t, ',') by {
      assert forall i :: 0 <= i < |t| ==> IsDigit(t[i]);
    }
    forall i | 0 <= i < |Line(x)| ensures Line(x)[i] != '\n' {
      if i < |t| {
        assert IsDigit(t[i]);
      } else if i > |t| {
        assert Line(x)[i] == w[i - |t| - 1];
      }
    }
    SplitAtFirst(t, ',', w);
    NatToStringRoundTrip(x.time);
    Fmt4RoundTrip(x.weight);
  }

  /** Reading rows takes the first line off, reads it, and reads the rest. */
  lemma ParseRowsCons(line: string, rest: string)
    requires Lacks(line, '\n')
    ensures ParseRows(line + "\n" + rest) ==
      match (ParseRow(line), ParseRows(rest))
      case (Some(x), Some(xs)) => Some([x] + xs)
      case _ => None
  {
    assert line + "\n" + rest == line + ['\n'] + rest;
    SplitAtFirst(line, '\n', rest);
  }

  lemma {:induction false} RowsRoundTrip(ss: seq<Sample>)
    ensures ParseRows(Rows(ss)) == Some(ss)
  {
    if ss != [] {
      LineParses(ss[0]);
      ParseRowsCons(Line(ss[0]), Rows(ss[1..]));
      RowsRoundTrip(ss[1..]);
      assert Rows(ss) == Line(ss[0]) + "\n" + Rows(ss[1..]);
      assert [ss[0]] + ss[1..] == ss;
    }
  }

  /** The log text determines the samples: reading it back gives them in order. */
  lemma LogRoundTrip(ss: seq<Sample>)
    ensures ParseLog(LogText(ss)) == Some(ss)
  {
    var s := LogText(ss);
    assert s[..|Header|] == Header;
    assert s[|Header|..] == Rows(ss);
    RowsRoundTrip(ss);
  }

  /** Number of occurrences of `c` in `s`. */
  function Count(s: string, c: char): nat {
    if s == [] then 0 else (if s[0] == c then 1 else 0) + Count(s[1..], c)
  }

  lemma {:induction false} CountConcat(a: string, b: string, c: char)
    ensures Count(a + b, c) == Count(a, c) + Count(b, c)
  {
    if a != [] {
      assert (a + b)[0] == a[0];
      assert (a + b)[1..] == a[1..] + b;
      CountConcat(a[1..], b, c);
    } else {
      assert a + b == b;
    }
  }

  /** A string whose only `c` is its last character holds one `c`. */
  lemma {:induction false} CountLast(s: string, c: char)
    requires |s| > 0 && s[|s| - 1] == c
    requires forall i :: 0 <= i < |s| - 1 ==> s[i] != c
    ensures Count(s, c) == 1
  {
    if |s| > 1 {
      CountLast(s[1..], c);
    }
  }

  /** Each row holds exactly one line break. */
  lemma RowHasOneLineBreak(x: Sample)
    ensures Count(Row(x), '\n') == 1
  {
    LineParses(x);
    CountLast(Row(x), '\n');
  }

  /** The log holds one line per sample plus the header line. */
  lemma {:induction false} LogLineCount(ss: seq<Sample>)
    ensures Count(LogText(ss), '\n') == |ss| + 1
  {
    RowsLineCount(ss);
    CountConcat(Header, Rows(ss), '\n');
    HeaderIsOneLine();
  }

  lemma HeaderIsOneLine()
    ensures Count(Header, '\n') == 1
  {
    CountLast(Header, '\n');
  }

  lemma {:induction false} RowsLineCount(ss: seq<Sample>)
    ensures Count(Rows(ss), '\n') == |ss|
  {
    if ss != [] {
      RowsLineCount(ss[1..]);
      RowHasOneLineBreak(ss[0]);
      CountConcat(Row(ss[0]), Rows(ss[1..]), '\n');
    }
  }
}
