/**
 * Reading segment durations out of an HLS manifest: every line that matches
 * /(segment[0-9]*.ts)/ names a segment whose duration the line before gives.
 */
module Segments {
  import opened Util
  import opened Text

  // -------------------------------------------------------------- the expression

  /** How many digits stand at position `i`. */
  function DigitsAt(s: string, i: nat): (n: nat)
    ensures i <= |s| ==> i + n <= |s|
    ensures forall j :: i <= j < i + n && j < |s| ==> IsDigit(s[j])
    ensures i + n < |s| ==> !IsDigit(s[i + n])
    decreases |s| - i
  {
    if i < |s| && IsDigit(s[i]) then 1 + DigitsAt(s, i + 1) else 0
  }

  predicate LineTerminator(c: char) {
    c == '\n' || c == '\r' || c == '\U{2028}' || c == '\U{2029}'
  }

  predicate StandsAt(s: string, i: nat, part: string) {
    i + |part| <= |s| && forall k :: 0 <= k < |part| ==> s[i + k] == part[k]
  }

  /** `.ts` after `k` of the digits, giving digits back from `k` down; the end of the match. */
  function EndAfterDigits(s: string, p: nat, k: nat): Option<nat> {
    if p + k < |s| && !LineTerminator(s[p + k]) && StandsAt(s, p + k + 1, "ts") then Some(p + k + 3)
    else if k == 0 then None
    else EndAfterDigits(s, p, k - 1)
  }

  function MatchAt(s: string, i: nat): Option<nat> {
    if StandsAt(s, i, "segment") then EndAfterDigits(s, i + 7, DigitsAt(s, i + 7)) else None
  }

  /** The leftmost match from position `i` on. */
  function FindFrom(s: string, i: nat): (r: Option<(nat, nat)>)
    ensures r.Some? ==> i <= r.value.0 < r.value.1 <= |s|
    decreases |s| - i
  {
    if i >= |s| then None
    else
      var end := MatchAt(s, i);
      if end.Some? then MatchEnds(s, i); Some((i, end.value)) else FindFrom(s, i + 1)
  }

  lemma MatchEnds(s: string, i: nat)
    requires MatchAt(s, i).Some?
    ensures i + 7 < MatchAt(s, i).value <= |s|
  {
    EndsWithin(s, i + 7, DigitsAt(s, i + 7));
  }

  lemma {:induction false} EndsWithin(s: string, p: nat, k: nat)
    requires EndAfterDigits(s, p, k).Some?
    ensures p < EndAfterDigits(s, p, k).value <= |s|
  {
    if p + k < |s| && !LineTerminator(s[p + k]) && StandsAt(s, p + k + 1, "ts") {
    } else {
      EndsWithin(s, p, k - 1);
    }
  }

  /** What `line.match(...)[0]` is, or None. */
  function SegmentNameIn(line: string): Option<string> {
    var m := FindFrom(line, 0);
    if m.Some? then Some(line[m.value.0..m.value.1]) else None
  }

  // ------------------------------------------------------------------ durations

  predicate AllDigits(s: string) {
    forall j :: 0 <= j < |s| ==> IsDigit(s[j])
  }

  /** A decimal as it is written: the digits before and after the point. */
  datatype Numeral = Numeral(whole: string, fraction: string)

  /** The numeral parseFloat reads at the start of an unsigned text without exponent. */
  function ReadNumeral(s: string): (r: Option<Numeral>)
    ensures r.Some? ==> AllDigits(r.value.whole) && AllDigits(r.value.fraction)
  {
    var w := DigitsAt(s, 0);
    var f := if w < |s| && s[w] == '.' then DigitsAt(s, w + 1) else 0;
    if w == 0 && f == 0 then None
    else if f == 0 then Some(Numeral(s[..w], []))
    else Some(Numeral(s[..w], s[w + 1..w + 1 + f]))
  }

  function Number(n: Numeral): real
    requires AllDigits(n.whole) && AllDigits(n.fraction)
  {
    Value(n.whole) as real + Value(n.fraction) as real / Pow10(|n.fraction|) as real
  }

  /** None is NaN. */
  function ParseFloat(s: string): Option<real> {
    var n := ReadNumeral(s);
    if n.Some? then Some(Number(n.value)) else None
  }

  /** The number after the first colon; NaN when there is none. */
  function DurationIn(line: string): Option<real> {
    var parts := Split(line, ':');
    if |parts| > 1 then ParseFloat(parts[1]) else None
  }

  type Durations = map<string, Option<real>>

  /** All the loop ever reads from a line. */
  datatype Line = Line(name: Option<string>, duration: Option<real>)

  function ReadLine(line: string): Line {
    Line(SegmentNameIn(line), DurationIn(line))
  }

  function ReadLines(lines: seq<string>): (r: seq<Line>)
    ensures |r| == |lines|
  {
    seq(|lines|, i requires 0 <= i < |lines| => ReadLine(lines[i]))
  }

  /** The map after the first `k` lines; None is the error of a name on the first line. */
  function Parsed(lines: seq<Line>, k: nat): Option<Durations>
    requires k <= |lines|
  {
    if k == 0 then Some(map[])
    else
      var before := Parsed(lines, k - 1);
      var name := lines[k - 1].name;
      if before.None? || name.None? then before
      else if k == 1 then None
      else Some(before.value[name.value := lines[k - 2].duration])
  }

  function ParsedText(manifest: string): Option<Durations> {
    var lines := ReadLines(Split(manifest, '\n'));
    Parsed(lines, |lines|)
  }

  lemma ParsedStep(lines: seq<Line>, i: nat)
    requires i < |lines|
    ensures Parsed(lines, i).Some? && i > 0 ==>
              Parsed(lines, i + 1) == if lines[i].name.None? then Parsed(lines, i)
                                      else Some(Parsed(lines, i).value[lines[i].name.value := lines[i - 1].duration])
    ensures i == 0 ==> Parsed(lines, 1) == if lines[0].name.None? then Some(map[]) else None
  {
    assert Parsed(lines, 0) == Some(map[]);
  }

  method GetSegmentsDuration(manifest: string) returns (r: Option<Durations>)
    ensures r == ParsedText(manifest)
  {
    var lines := Split(manifest, '\n');
    var durations: Durations := map[];
    for i := 0 to |lines|
      invariant Parsed(ReadLines(lines), i) == Some(durations)
    {
      var name := SegmentNameIn(lines[i]);
      ParsedStep(ReadLines(lines), i);
      if name.Some? {
        if i == 0 {
          ErrorIffNameFirst(ReadLines(lines), |lines|);
          return None;
        }
        durations := durations[name.value := DurationIn(lines[i - 1])];
      }
    }
    r := Some(durations);
  }

  /** Reading fails exactly when the first line names a segment: no line stands before it. */
  lemma {:induction false} ErrorIffNameFirst(lines: seq<Line>, k: nat)
    requires 1 <= k <= |lines|
    ensures Parsed(lines, k).None? <==> lines[0].name.Some?
  {
    if k > 1 {
      ErrorIffNameFirst(lines, k - 1);
    } else {
      assert Parsed(lines, 0) == Some(map[]);
    }
  }

  // ------------------------------------------------------------------- printing

  const MICROS := 1000000

  /** Segment file names as ffmpeg numbers them. */
  function SegmentName(i: nat): string {
    "segment" + (Padded(i, 5) + ".ts")
  }

  function SegmentLine(i: nat): string {
    "segments/" + SegmentName(i)
  }

  /** A duration in seconds with six decimals. */
  function DurationText(micros: nat): string {
    Decimal(micros / MICROS) + ("." + Padded(micros % MICROS, 6))
  }

  function ExtInf(micros: nat): string {
    "#EXTINF:" + (DurationText(micros) + ",")
  }

  /** The two lines of each of the first `n` segments. */
  function SegmentLines(durations: seq<nat>, n: nat): seq<string>
    requires n <= |durations|
  {
    if n == 0 then [] else SegmentLines(durations, n - 1) + [ExtInf(durations[n - 1]), SegmentLine(n - 1)]
  }

  function ManifestLines(headers: seq<string>, durations: seq<nat>, footers: seq<string>): seq<string> {
    headers + SegmentLines(durations, |durations|) + footers
  }

  ghost predicate PlainLines(lines: seq<string>) {
    forall l :: l in lines ==> '\n' !in l && SegmentNameIn(l).None?
  }

  function Names(n: nat): (r: seq<string>)
    ensures |r| == n
  {
    seq(n, (i: nat) => SegmentName(i))
  }

  function Numbers(durations: seq<nat>): (r: seq<real>)
    ensures |r| == |durations|
  {
    seq(|durations|, i requires 0 <= i < |durations| => durations[i] as real / MICROS as real)
  }

  /** Each of the first `n` names with its number. */
  function Table(names: seq<string>, numbers: seq<real>, n: nat): Durations
    requires n <= |names| && n <= |numbers|
  {
    if n == 0 then map[] else Table(names, numbers, n - 1)[names[n - 1] := Some(numbers[n - 1])]
  }

  // --------------------------------------------------------------------- lemmas

  lemma SegmentNamesDiffer(i: nat, j: nat)
    ensures SegmentName(i) == SegmentName(j) <==> i == j
  {
    MiddleOf("segment", Padded(i, 5), Padded(j, 5), ".ts");
    PaddedHasValue(i, 5);
    PaddedHasValue(j, 5);
  }

  lemma MiddleOf(a: string, b: string, b': string, c: string)
    ensures a + (b + c) == a + (b' + c) <==> b == b'
  {
    if a + (b + c) == a + (b' + c) {
      assert b + c == (a + (b + c))[|a|..];
      assert b' + c == (a + (b' + c))[|a|..];
      assert |b| == |b'|;
      assert b == (b + c)[..|b|];
      assert b' == (b' + c)[..|b'|];
    }
  }

  lemma PartAt(s: string, i: nat, part: string, k: nat)
    requires k < |part|
    ensures StandsAt(s, i, part) ==> s[i + k] == part[k]
  {}

  /** Without an `s` nothing matches. */
  lemma {:induction false} NoSNoMatch(s: string, i: nat)
    requires 's' !in s
    ensures FindFrom(s, i).None?
    decreases |s| - i
  {
    if i < |s| {
      PartAt(s, i, "segment", 0);
      NoSNoMatch(s, i + 1);
    }
  }

  lemma DigitsEnd(s: string, i: nat, n: nat)
    requires i + n <= |s| && (forall j :: i <= j < i + n ==> IsDigit(s[j]))
    requires i + n < |s| ==> !IsDigit(s[i + n])
    ensures DigitsAt(s, i) == n
    decreases n
  {
    if n > 0 {
      DigitsEnd(s, i + 1, n - 1);
    }
  }

  /** A run of digits between `a` and something that is no digit. */
  lemma DigitRun(a: string, run: string, c: string, s: string)
    requires s == a + run + c && c != [] && !IsDigit(c[0])
    requires AllDigits(run)
    ensures DigitsAt(s, |a|) == |run|
    ensures s[|a|..|a| + |run|] == run && s[|a| + |run|] == c[0]
  {
    assert forall j :: |a| <= j < |a| + |run| ==> s[j] == run[j - |a|];
    DigitsEnd(s, |a|, |run|);
  }

  /** The leftmost match skips the directory prefix and takes exactly the file name. */
  lemma SegmentLineNames(i: nat)
    ensures SegmentNameIn(SegmentLine(i)) == Some(SegmentName(i))
  {
    var line, digits := SegmentLine(i), Padded(i, 5);
    NameIsSuffix("segments/", SegmentName(i), line);
    PrefixDoesNotMatch(line);
    MatchesTheName(digits, line);
    assert line[9..|line|] == line[9..];
  }

  lemma NameIsSuffix(a: string, b: string, s: string)
    requires s == a + b
    ensures s[..|a|] == a && s[|a|..] == b
  {}

  lemma MatchesTheName(digits: string, line: string)
    requires AllDigits(digits)
    requires line == "segments/" + ("segment" + (digits + ".ts"))
    ensures FindFrom(line, 9) == Some((9, |line|))
  {
    FourParts("segments/", "segment", digits, ".ts", line);
    DotMatches(line, 16, |digits|);
  }

  lemma FourParts(a: string, b: string, digits: string, c: string, s: string)
    requires s == a + (b + (digits + c)) && AllDigits(digits) && c != [] && !IsDigit(c[0])
    ensures StandsAt(s, |a|, b) && StandsAt(s, |a| + |b| + |digits|, c)
    ensures DigitsAt(s, |a| + |b|) == |digits|
    ensures |s| == |a| + |b| + |digits| + |c|
  {
    Regroup(a, b, digits, c);
    DigitRun(a + b, digits, c, s);
    PartStands(a, b, digits + c, s);
    PartStands(a + b + digits, c, [], s);
  }

  lemma Regroup(a: string, b: string, d: string, c: string)
    ensures a + (b + (d + c)) == (a + b) + d + c == a + b + (d + c) == (a + b + d) + c + []
  {}

  lemma PartStands(a: string, part: string, c: string, s: string)
    requires s == a + part + c
    ensures StandsAt(s, |a|, part)
  {}

  lemma DotMatches(s: string, p: nat, k: nat)
    requires 7 <= p && p + k + 3 == |s| && StandsAt(s, p + k, ".ts")
    requires StandsAt(s, p - 7, "segment") && DigitsAt(s, p) == k
    ensures FindFrom(s, p - 7) == Some((p - 7, |s|))
  {
    PartAt(s, p + k, ".ts", 0);
    PartAt(s, p + k, ".ts", 1);
    PartAt(s, p + k, ".ts", 2);
    assert StandsAt(s, p + k + 1, "ts");
    assert EndAfterDigits(s, p, k) == Some(p + k + 3);
    assert MatchAt(s, p - 7) == Some(|s|);
  }

  lemma PrefixDoesNotMatch(line: string)
    requires |line| > 9 && line[..9] == "segments/"
    ensures FindFrom(line, 0) == FindFrom(line, 9)
  {
    assert forall j :: 0 <= j < 9 ==> line[j] == "segments/"[j];
    assert DigitsAt(line, 7) == 0;
    PartAt(line, 8, "ts", 0);
    assert MatchAt(line, 0).None?;
    forall j: nat | 1 <= j < 9 ensures MatchAt(line, j).None? {
      PartAt(line, j, "segment", 0);
      PartAt(line, j, "segment", 1);
    }
    NoMatchBetween(line, 0, 9);
  }

  lemma {:induction false} NoMatchBetween(s: string, i: nat, j: nat)
    requires i <= j <= |s| && forall k: nat :: i <= k < j ==> MatchAt(s, k).None?
    ensures FindFrom(s, i) == FindFrom(s, j)
    decreases j - i
  {
    if i < j {
      NoMatchBetween(s, i + 1, j);
    }
  }

  lemma DurationTextIsPlain(micros: nat)
    ensures forall c :: c in DurationText(micros) ==> IsDigit(c) || c == '.'
  {
    var d := Decimal(micros / MICROS);
    var f := Padded(micros % MICROS, 6);
    forall c | c in DurationText(micros) ensures IsDigit(c) || c == '.' {
      assert c in d || c == '.' || c in f;
    }
  }

  lemma ExtInfIsPlain(micros: nat)
    ensures '\n' !in ExtInf(micros) && SegmentNameIn(ExtInf(micros)).None?
  {
    DurationTextIsPlain(micros);
    assert 's' !in DurationText(micros) && '\n' !in DurationText(micros);
    NoSNoMatch(ExtInf(micros), 0);
  }

  /** Reading the printed duration back gives the number of seconds. */
  lemma DurationReadsBack(micros: nat)
    ensures DurationIn(ExtInf(micros)) == Some(micros as real / MICROS as real)
  {
    DurationTextIsPlain(micros);
    var text := DurationText(micros) + ",";
    assert ':' !in DurationText(micros);
    assert ExtInf(micros) == "#EXTINF" + [':'] + text;
    SplitAtFirst("#EXTINF", ':', text);
    SplitAtFirst(text, ':', []);
    assert Split(ExtInf(micros), ':') == ["#EXTINF", text];
    ParseReadsBack(micros, text);
  }

  lemma ParseReadsBack(micros: nat, text: string)
    requires text == DurationText(micros) + ","
    ensures ParseFloat(text) == Some(micros as real / MICROS as real)
  {
    var whole, part := micros / MICROS, micros % MICROS;
    ReadsTwoRuns(Decimal(whole), Padded(part, 6), text);
    DecimalHasValue(whole);
    PaddedHasValue(part, 6);
    SixDigits(part);
    WholeAndPart(micros);
  }

  /** Two runs of digits around a point, ended by a comma. */
  lemma ReadsTwoRuns(d: string, f: string, text: string)
    requires d != [] && f != []
    requires AllDigits(d) && AllDigits(f)
    requires text == d + ("." + f) + ","
    ensures ReadNumeral(text) == Some(Numeral(d, f))
  {
    TwoRuns(d, f, text);
    assert text[..|d|] == text[0..|d|];
  }

  lemma TwoRuns(d: string, f: string, text: string)
    requires AllDigits(d) && AllDigits(f)
    requires text == d + ("." + f) + ","
    ensures |text| > |d| + 1 + |f|
    ensures DigitsAt(text, 0) == |d| && text[0..|d|] == d && text[|d|] == '.'
    ensures DigitsAt(text, |d| + 1) == |f| && text[|d| + 1..|d| + 1 + |f|] == f
  {
    DotRegroup(d, f);
    DigitRun([], d, "." + f + ",", text);
    DigitRun(d + ".", f, ",", text);
  }

  lemma DotRegroup(d: string, f: string)
    ensures d + ("." + f) + "," == [] + d + ("." + f + ",") == (d + ".") + f + ","
  {}

  lemma WholeAndPart(micros: nat)
    ensures (micros / MICROS) as real + (micros % MICROS) as real / MICROS as real == micros as real / MICROS as real
  {
    var whole, part := micros / MICROS, micros % MICROS;
    assert micros as real == whole as real * 1000000.0 + part as real;
  }

  lemma SixDigits(n: nat)
    requires n < MICROS
    ensures |Padded(n, 6)| == 6 && Pow10(6) == MICROS
  {
    assert Pow10(1) == 10;
    assert Pow10(2) == 100;
    assert Pow10(3) == 1000;
    assert Pow10(4) == 10000;
    assert Pow10(5) == 100000;
    DecimalLength(n, 6);
  }

  lemma {:induction false} PlainLinesAddNothing(lines: seq<Line>, a: nat, k: nat)
    requires a <= k <= |lines| && forall j :: a <= j < k ==> lines[j].name.None?
    ensures Parsed(lines, k) == Parsed(lines, a)
    decreases k
  {
    if a < k {
      PlainLinesAddNothing(lines, a, k - 1);
    }
  }

  /** From line `h` on, pairs of a number without a name and a name. */
  ghost predicate Pairs(lines: seq<Line>, h: nat, names: seq<string>, numbers: seq<real>, n: nat) {
    && n <= |names| && n <= |numbers| && h + 2 * n <= |lines|
    && (forall i :: 0 <= i < n ==> lines[h + 2 * i] == Line(None, Some(numbers[i])))
    && (forall i :: 0 <= i < n ==> lines[h + 2 * i + 1].name == Some(names[i]))
  }

  lemma OnePair(lines: seq<Line>, k: nat, name: string, number: real)
    requires k + 2 <= |lines| && Parsed(lines, k).Some?
    requires lines[k] == Line(None, Some(number)) && lines[k + 1].name == Some(name)
    ensures Parsed(lines, k + 2) == Some(Parsed(lines, k).value[name := Some(number)])
  {
    assert Parsed(lines, k + 1) == Parsed(lines, k);
  }

  lemma {:induction false} PairsAddUp(lines: seq<Line>, h: nat, names: seq<string>, numbers: seq<real>, n: nat)
    requires Pairs(lines, h, names, numbers, n)
    requires forall j :: 0 <= j < h ==> lines[j].name.None?
    ensures Parsed(lines, h + 2 * n) == Some(Table(names, numbers, n))
  {
    if n == 0 {
      PlainLinesAddNothing(lines, 0, h);
    } else {
      PairsAddUp(lines, h, names, numbers, n - 1);
      OnePair(lines, h + 2 * (n - 1), names[n - 1], numbers[n - 1]);
    }
  }

  /** Padded numerals, and so segment lines, have no newline. */
  lemma SegmentLineIsOneLine(i: nat)
    ensures '\n' !in SegmentLine(i)
  {
    assert '\n' !in Padded(i, 5);
  }

  lemma {:induction false} SegmentLinesAreLines(durations: seq<nat>, n: nat)
    requires n <= |durations|
    ensures forall l :: l in SegmentLines(durations, n) ==> '\n' !in l
  {
    if n > 0 {
      SegmentLinesAreLines(durations, n - 1);
      ExtInfIsPlain(durations[n - 1]);
      SegmentLineIsOneLine(n - 1);
    }
  }

  lemma TwoLinesRead(durations: seq<nat>, i: nat)
    requires i < |durations|
    ensures ReadLine(ExtInf(durations[i])) == Line(None, Some(Numbers(durations)[i]))
    ensures ReadLine(SegmentLine(i)).name == Some(SegmentName(i))
  {
    ExtInfIsPlain(durations[i]);
    DurationReadsBack(durations[i]);
    SegmentLineNames(i);
  }

  lemma {:induction false} SegmentLinesArePairs(durations: seq<nat>, n: nat)
    requires n <= |durations|
    ensures |SegmentLines(durations, n)| == 2 * n
    ensures Pairs(ReadLines(SegmentLines(durations, n)), 0, Names(|durations|), Numbers(durations), n)
  {
    if n > 0 {
      SegmentLinesArePairs(durations, n - 1);
      TwoLinesRead(durations, n - 1);
      assert Names(|durations|)[n - 1] == SegmentName(n - 1);
      OneMorePair(SegmentLines(durations, n - 1), ExtInf(durations[n - 1]), SegmentLine(n - 1),
        Names(|durations|), Numbers(durations), n - 1);
    }
  }

  lemma OneMorePair(lines: seq<string>, a: string, b: string, names: seq<string>, numbers: seq<real>, n: nat)
    requires n < |names| && n < |numbers| && |lines| == 2 * n
    requires Pairs(ReadLines(lines), 0, names, numbers, n)
    requires ReadLine(a) == Line(None, Some(numbers[n])) && ReadLine(b).name == Some(names[n])
    ensures Pairs(ReadLines(lines + [a, b]), 0, names, numbers, n + 1)
  {
    PairAfter(ReadLines(lines), ReadLine(a), ReadLine(b), names, numbers, n);
    assert ReadLines(lines + [a, b]) == ReadLines(lines) + [ReadLine(a), ReadLine(b)];
  }

  lemma PairAfter(lines: seq<Line>, a: Line, b: Line, names: seq<string>, numbers: seq<real>, n: nat)
    requires n < |names| && n < |numbers| && |lines| == 2 * n
    requires Pairs(lines, 0, names, numbers, n)
    requires a == Line(None, Some(numbers[n])) && b.name == Some(names[n])
    ensures Pairs(lines + [a, b], 0, names, numbers, n + 1)
  {
    var more := lines + [a, b];
    forall i | 0 <= i < n + 1
      ensures more[0 + 2 * i] == Line(None, Some(numbers[i])) && more[0 + 2 * i + 1].name == Some(names[i])
    {
      if i < n {
        assert lines[0 + 2 * i] == Line(None, Some(numbers[i])) && lines[0 + 2 * i + 1].name == Some(names[i]);
      }
    }
  }

  /** The lines of a manifest, as read: plain ones, then the pairs, then plain ones. */
  lemma ManifestAddsUp(headers: seq<Line>, pairs: seq<Line>, footers: seq<Line>, names: seq<string>,
          numbers: seq<real>, n: nat)
    requires forall j :: 0 <= j < |headers| ==> headers[j].name.None?
    requires forall j :: 0 <= j < |footers| ==> footers[j].name.None?
    requires |pairs| == 2 * n && Pairs(pairs, 0, names, numbers, n)
    ensures var lines := headers + pairs + footers;
      Parsed(lines, |lines|) == Some(Table(names, numbers, n))
  {
    var lines := headers + pairs + footers;
    var h := |headers|;
    forall i | 0 <= i < n ensures lines[h + 2 * i] == pairs[2 * i] && lines[h + 2 * i + 1] == pairs[2 * i + 1] {}
    PairsAddUp(lines, h, names, numbers, n);
    PlainLinesAddNothing(lines, h + 2 * n, |lines|);
  }

  lemma PlainLinesRead(lines: seq<string>)
    requires PlainLines(lines)
    ensures forall j :: 0 <= j < |lines| ==> ReadLines(lines)[j].name.None?
  {
    forall j | 0 <= j < |lines| ensures ReadLines(lines)[j].name.None? {
      assert lines[j] in lines;
    }
  }

  lemma ReadLinesAppend(a: seq<string>, b: seq<string>, c: seq<string>)
    ensures ReadLines(a + b + c) == ReadLines(a) + ReadLines(b) + ReadLines(c)
  {}

  lemma ManifestSplits(headers: seq<string>, durations: seq<nat>, footers: seq<string>)
    requires PlainLines(headers) && PlainLines(footers)
    requires ManifestLines(headers, durations, footers) != []
    ensures Split(Join(ManifestLines(headers, durations, footers), '\n'), '\n')
         == ManifestLines(headers, durations, footers)
  {
    SegmentLinesAreLines(durations, |durations|);
    var middle := SegmentLines(durations, |durations|);
    var lines := headers + middle + footers;
    forall l | l in lines ensures '\n' !in l {
      assert l in headers || l in middle || l in footers;
    }
    SplitUndoesJoin(lines, '\n');
  }

  /**
   * Parsing undoes printing: for any headers and footers that name no segment and
   * any list of durations, the manifest parses to exactly the printed map.
   */
  lemma ParsingUndoesPrinting(headers: seq<string>, durations: seq<nat>, footers: seq<string>)
    requires PlainLines(headers) && PlainLines(footers)
    requires ManifestLines(headers, durations, footers) != []
    ensures ParsedText(Join(ManifestLines(headers, durations, footers), '\n'))
         == Some(Table(Names(|durations|), Numbers(durations), |durations|))
  {
    var n := |durations|;
    ManifestSplits(headers, durations, footers);
    PlainLinesRead(headers);
    PlainLinesRead(footers);
    SegmentLinesArePairs(durations, n);
    var middle := SegmentLines(durations, n);
    ManifestAddsUp(ReadLines(headers), ReadLines(middle), ReadLines(footers), Names(n), Numbers(durations), n);
    ReadLinesAppend(headers, middle, footers);
  }

  lemma {:induction false} TableOfDistinctNames(names: seq<string>, numbers: seq<real>, n: nat)
    requires n <= |names| && n <= |numbers|
    requires forall i, j :: 0 <= i < j < |names| ==> names[i] != names[j]
    ensures var t := Table(names, numbers, n);
      && |t| == n
      && (forall i :: 0 <= i < n ==> names[i] in t && t[names[i]] == Some(numbers[i]))
      && (forall k :: k in t ==> exists i :: 0 <= i < n && k == names[i])
  {
    if n > 0 {
      TableOfDistinctNames(names, numbers, n - 1);
    }
  }

  /** And the map has one entry per segment, with its own duration. */
  lemma TableHasEverySegment(durations: seq<nat>)
    ensures var t := Table(Names(|durations|), Numbers(durations), |durations|);
      && |t| == |durations|
      && forall i: nat :: i < |durations| ==>
           SegmentName(i) in t && t[SegmentName(i)] == Some(durations[i] as real / MICROS as real)
  {
    var n := |durations|;
    var names, numbers := Names(n), Numbers(durations);
    forall i, j | 0 <= i < j < n ensures names[i] != names[j] {
      SegmentNamesDiffer(i, j);
    }
    TableOfDistinctNames(names, numbers, n);
    forall i: nat | i < n
      ensures var t := Table(names, numbers, n);
        SegmentName(i) in t && t[SegmentName(i)] == Some(durations[i] as real / MICROS as real)
    {
      assert names[i] == SegmentName(i) && numbers[i] == durations[i] as real / MICROS as real;
    }
  }
}
