/**
 * Control numbers of appraisal reports, `RL <seq>-<year>` (server.js:37-58).
 * The database lookup of the newest report of the year is a parameter: the
 * control number of that row, if there is one.
 */
module ControlNumber {
  import opened Wrappers
  import Text

  /** JavaScript's `\s` class. */
  predicate IsSpace(c: char) {
    c == '\t' || c == '\n' || c == '\U{000B}' || c == '\U{000C}' || c == '\r' || c == ' '
    || c == '\U{00A0}' || c == '\U{1680}' || ('\U{2000}' <= c <= '\U{200A}')
    || c == '\U{2028}' || c == '\U{2029}' || c == '\U{202F}' || c == '\U{205F}'
    || c == '\U{3000}' || c == '\U{FEFF}'
  }

  /** End of the run of whitespace starting at `j` (what greedy `\s*` consumes). */
  function SkipSpaces(s: string, j: nat): (e: nat)
    requires j <= |s|
    ensures j <= e <= |s|
    ensures forall i :: j <= i < e ==> IsSpace(s[i])
    ensures e == |s| || !IsSpace(s[e])
    decreases |s| - j
  {
    if j < |s| && IsSpace(s[j]) then SkipSpaces(s, j + 1) else j
  }

  /** End of the run of decimal digits starting at `j` (what greedy `\d+` consumes). */
  function SkipDigits(s: string, j: nat): (e: nat)
    requires j <= |s|
    ensures j <= e <= |s|
    ensures forall i :: j <= i < e ==> Text.IsDigit(s[i])
    ensures e == |s| || !Text.IsDigit(s[e])
    decreases |s| - j
  {
    if j < |s| && Text.IsDigit(s[j]) then SkipDigits(s, j + 1) else j
  }

  /**
   * `/RL\s*(\d+)\-(\d{4})/` tried at position `i`: the captured digits. Neither
   * quantifier can give back characters usefully, so the greedy runs decide it.
   */
  function MatchAt(s: string, i: nat): (g: Option<string>)
    requires i <= |s|
    ensures g.Some? ==> |g.value| >= 1 && Text.AllDigits(g.value)
  {
    if i + 2 <= |s| && s[i..i + 2] == "RL" then
      var w := SkipSpaces(s, i + 2);
      var d := SkipDigits(s, w);
      if w < d && d + 5 <= |s| && s[d] == '-' && Text.AllDigits(s[d + 1..d + 5]) then
        Some(s[w..d])
      else None
    else None
  }

  /** `String.prototype.match` without the `g` flag: the leftmost position where the pattern matches. */
  function FindMatch(s: string, i: nat): (g: Option<string>)
    requires i <= |s|
    ensures g.Some? ==> |g.value| >= 1 && Text.AllDigits(g.value)
    ensures g.None? <==> forall j :: i <= j < |s| ==> MatchAt(s, j).None?
    ensures g.Some? ==> exists j :: i <= j < |s| && MatchAt(s, j) == g && forall k :: i <= k < j ==> MatchAt(s, k).None?
    decreases |s| - i
  {
    if i == |s| then None
    else match MatchAt(s, i)
      case Some(g) => Some(g)
      case None => FindMatch(s, i + 1)
  }

  /** The sequence number a control number carries, `parseInt(match[1], 10)`, or `None` when it does not match. */
  function ParseSequence(controle: string): Option<nat> {
    match FindMatch(controle, 0)
    case Some(g) => Some(Text.DigitsValue(g))
    case None => None
  }

  /** `` `RL ${String(seq).padStart(3, '0')}-${ano}` ``. */
  function Format(sequence: nat, ano: nat): string {
    "RL " + Text.PadZeros(Text.Decimal(sequence), 3) + "-" + Text.Decimal(ano)
  }

  /**
   * `gerarNumeroControle(ano)`, given the control number of the year's newest
   * report (`None` when the year has none).
   */
  function NextControl(last: Option<string>, ano: nat): string {
    var sequence :=
      if last.Some? && last.value != "" then
        match ParseSequence(last.value)
        case Some(n) => n + 1
        case None => 1
      else 1;
    Format(sequence, ano)
  }

  /**
   * A control number yields a sequence exactly when the pattern matches at some
   * position, and the sequence is the value of the digits of the leftmost match.
   */
  lemma ParseSequenceLeftmost(controle: string)
    ensures ParseSequence(controle).None? <==> forall j :: 0 <= j < |controle| ==> MatchAt(controle, j).None?
    ensures ParseSequence(controle).Some? ==>
      exists j :: 0 <= j < |controle| && MatchAt(controle, j).Some? &&
        ParseSequence(controle).value == Text.DigitsValue(MatchAt(controle, j).value) &&
        forall k :: 0 <= k < j ==> MatchAt(controle, k).None?
  {
  }

  /**
   * Every control number is `RL `, then at least three digits (the sequence
   * padded with zeros), then `-` and the year.
   */
  lemma FormatShape(sequence: nat, ano: nat)
    ensures var c := Format(sequence, ano); var y := Text.Decimal(ano);
      |c| >= 7 + |y| && c[..3] == "RL " && c[|c| - |y| - 1..] == "-" + y
      && Text.AllDigits(c[3..|c| - |y| - 1])
  {
    var p := Text.PadZeros(Text.Decimal(sequence), 3);
    var y := Text.Decimal(ano);
    var c := Format(sequence, ano);
    assert c == "RL " + p + ("-" + y);
    assert c[3..|c| - |y| - 1] == p;
  }

  /** Whatever the previous control number is, the next one has the shape of `Format` for the given year. */
  lemma NextControlShape(last: Option<string>, ano: nat)
    ensures var c := NextControl(last, ano); var y := Text.Decimal(ano);
      |c| >= 7 + |y| && c[..3] == "RL " && c[|c| - |y| - 1..] == "-" + y
      && Text.AllDigits(c[3..|c| - |y| - 1])
  {
    if last.Some? && last.value != "" && ParseSequence(last.value).Some? {
      FormatShape(ParseSequence(last.value).value + 1, ano);
    } else {
      FormatShape(1, ano);
    }
  }

  /** The first report of a year gets sequence 001. */
  lemma FirstOfYear(ano: nat)
    ensures NextControl(None, ano) == "RL 001-" + Text.Decimal(ano)
  {
    FormatSmall(1, ano);
    assert Text.DigitChar(1) == '1';
  }

  /** A previous control number that does not match the pattern restarts the sequence at 1. */
  lemma UnparsableRestarts(last: string, ano: nat)
    requires ParseSequence(last) == None
    ensures NextControl(Some(last), ano) == Format(1, ano)
  {
  }

  lemma {:induction false} DecimalLength(n: nat)
    requires n >= 1000
    ensures |Text.Decimal(n)| >= 4
  {
    var q := n / 10;
    if q >= 1000 {
      DecimalLength(q);
    } else {
      assert q >= 100;
      assert |Text.Decimal(q)| == |Text.Decimal(q / 10)| + 1;
      assert |Text.Decimal(q / 10)| == |Text.Decimal(q / 100)| + 1;
    }
  }

  /** The pattern matches `RL <digits>-<year>` at its start and captures the digits. */
  lemma MatchFormatted(p: string, y: string)
    requires |p| >= 1 && Text.AllDigits(p)
    requires |y| >= 4 && Text.AllDigits(y)
    ensures FindMatch("RL " + p + "-" + y, 0) == Some(p)
  {
    var s := "RL " + p + "-" + y;
    var d := 3 + |p|;
    assert s[0..2] == "RL";
    assert s[2] == ' ' && s[3] == p[0];
    assert SkipSpaces(s, 3) == 3;
    assert SkipSpaces(s, 2) == 3;
    assert forall i :: 3 <= i < d ==> s[i] == p[i - 3];
    assert s[d] == '-';
    SkipDigitsRun(s, 3, d);
    assert s[d + 1..d + 5] == y[..4];
    assert s[3..d] == p;
    assert MatchAt(s, 0) == Some(p);
  }

  /** Parsing a formatted control number recovers its sequence, for any year of four digits or more. */
  lemma ParseFormat(sequence: nat, ano: nat)
    requires ano >= 1000
    ensures ParseSequence(Format(sequence, ano)) == Some(sequence)
  {
    var digits := Text.Decimal(sequence);
    var p := Text.PadZeros(digits, 3);
    Text.DecimalValue(sequence);
    if |digits| < 3 {
      Text.LeadingZerosValue(3 - |digits|, digits);
    }
    assert Text.AllDigits(p) && Text.DigitsValue(p) == sequence;
    DecimalLength(ano);
    MatchFormatted(p, Text.Decimal(ano));
  }

  lemma {:induction false} SkipDigitsRun(s: string, j: nat, d: nat)
    requires j <= d < |s|
    requires forall i :: j <= i < d ==> Text.IsDigit(s[i])
    requires !Text.IsDigit(s[d])
    ensures SkipDigits(s, j) == d
    decreases d - j
  {
    if j < d {
      SkipDigitsRun(s, j + 1, d);
    }
  }

  /** A previous control number that parses to `n` is followed by sequence `n + 1`. */
  lemma NextAfterParsed(last: string, ano: nat, n: nat)
    requires ParseSequence(last) == Some(n)
    ensures NextControl(Some(last), ano) == Format(n + 1, ano)
  {
    EmptyDoesNotParse();
    var sequence := if last != "" then n + 1 else 1;
    assert sequence == n + 1;
  }

  /** The empty string carries no sequence. */
  lemma EmptyDoesNotParse()
    ensures ParseSequence("") == None
  {
    assert FindMatch("", 0) == None;
  }

  /** Each new control number carries the previous one's sequence plus one. */
  lemma NextIsSuccessor(last: string, ano: nat, k: nat)
    requires ano >= 1000
    requires ParseSequence(last) == Some(k)
    ensures ParseSequence(NextControl(Some(last), ano)) == Some(k + 1)
  {
    NextAfterParsed(last, ano, k);
    ParseFormat(k + 1, ano);
  }

  /** Different sequences of the same year never share a control number. */
  lemma FormatInjective(a: nat, b: nat, ano: nat)
    requires ano >= 1000 && a != b
    ensures Format(a, ano) != Format(b, ano)
  {
    ParseFormat(a, ano);
    ParseFormat(b, ano);
  }

  lemma Year2024()
    ensures Text.Decimal(2024) == "2024"
  {
    assert Text.Decimal(2) == "2";
    assert Text.Decimal(20) == "20";
    assert Text.Decimal(202) == "202";
  }

  /** A one-digit sequence is padded with two zeros. */
  lemma PadDigit(n: nat)
    requires n < 10
    ensures Text.PadZeros(Text.Decimal(n), 3) == ['0', '0', Text.DigitChar(n)]
  {
    assert Text.Decimal(n) == [Text.DigitChar(n)];
    assert Text.Zeros(2) == "00";
  }

  lemma FormatSmall(n: nat, ano: nat)
    requires n < 10
    ensures Format(n, ano) == "RL 00" + [Text.DigitChar(n)] + "-" + Text.Decimal(ano)
  {
    PadDigit(n);
  }

  lemma ParseExample()
    ensures ParseSequence("RL 007-2024") == Some(7)
  {
    assert "RL " + "007" + "-" + "2024" == "RL 007-2024";
    MatchFormatted("007", "2024");
    Value007();
  }

  lemma Value007()
    ensures Text.AllDigits("007") && Text.DigitsValue("007") == 7
  {
    assert Text.DigitsValue("0") == 0;
    assert "00"[..1] == "0";
    assert Text.DigitsValue("00") == 0;
    assert "007"[..2] == "00";
  }

  lemma FormatExample()
    ensures Format(8, 2024) == "RL 008-2024"
  {
    FormatSmall(8, 2024);
    Year2024();
    assert Text.DigitChar(8) == '8';
  }

  /** `RL 007-2024` is followed by `RL 008-2024`. */
  lemma SuccessorExample()
    ensures NextControl(Some("RL 007-2024"), 2024) == "RL 008-2024"
  {
    ParseExample();
    NextAfterParsed("RL 007-2024", 2024, 7);
    FormatExample();
  }
}
