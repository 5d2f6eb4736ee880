/**
 * The small string and list edits the client applies to its state: the
 * digit-grouping cleanup of `parseCurrency` (public/js/app.js:172-175), the
 * semicolon-separated area import (public/js/app.js:633-639), removal of a row
 * by index with `splice` (public/js/app.js:621, :677) and the backslash-to-slash
 * normalisation of stored paths (public/js/app.js:894, :923, :988-989).
 */
module FormEdits {
  import opened Wrappers
  import opened Json
  import Text

  /** `s.replace(/c/g, '')`. */
  function RemoveAll(s: string, c: char): (r: string)
    ensures c !in r
    ensures |r| <= |s|
  {
    if s == [] then [] else (if s[0] == c then [] else [s[0]]) + RemoveAll(s[1..], c)
  }

  lemma {:induction false} RemoveAllAppend(a: string, b: string, c: char)
    ensures RemoveAll(a + b, c) == RemoveAll(a, c) + RemoveAll(b, c)
  {
    if a == [] {
      assert a + b == b;
    } else {
      var head: string := if a[0] == c then [] else [a[0]];
      assert (a + b)[0] == a[0];
      assert (a + b)[1..] == a[1..] + b;
      RemoveAllAppend(a[1..], b, c);
      assert RemoveAll(a + b, c) == head + RemoveAll(a[1..] + b, c);
      assert RemoveAll(a, c) == head + RemoveAll(a[1..], c);
    }
  }

  lemma {:induction false} RemoveAllAbsent(s: string, c: char)
    requires c !in s
    ensures RemoveAll(s, c) == s
  {
    if s != [] {
      RemoveAllAbsent(s[1..], c);
      assert [s[0]] + s[1..] == s;
    }
  }

  /** `s.replace(c, d)` with a one-character string pattern: only the first occurrence changes. */
  function ReplaceFirst(s: string, c: char, d: char): (r: string)
    ensures |r| == |s|
    ensures forall i :: 0 <= i < |s| ==> r[i] == if s[i] == c && c !in s[..i] then d else s[i]
  {
    if s == [] then []
    else if s[0] == c then [d] + s[1..]
    else
      var rest := ReplaceFirst(s[1..], c, d);
      assert forall i :: 1 <= i < |s| ==> s[1..][..i - 1] == s[1..i] && s[..i] == [s[0]] + s[1..i];
      [s[0]] + rest
  }

  lemma ReplaceFirstAfter(a: string, b: string, c: char, d: char)
    requires c !in a
    ensures ReplaceFirst(a + [c] + b, c, d) == a + [d] + b
  {
    var s := a + [c] + b;
    var r := ReplaceFirst(s, c, d);
    forall i | 0 <= i < |s|
      ensures r[i] == (a + [d] + b)[i]
    {
      if i < |a| {
        assert s[i] == a[i];
      } else if i == |a| {
        assert s[..i] == a;
      } else {
        assert s[..i][|a|] == c;
      }
    }
  }

  /**
   * The text `parseCurrency(value)` hands to `Number` for a string value: the
   * thousands dots dropped and the first comma turned into the decimal point.
   * An empty value short-circuits to `''` (None here).
   */
  function CurrencyText(value: string): (r: Option<string>)
    ensures r.None? <==> value == ""
    ensures r.Some? ==> |r.value| == |RemoveAll(value, '.')|
    ensures r.Some? ==> forall i, j :: 0 <= i < j < |r.value| && r.value[i] == '.' ==> r.value[j] != '.'
    ensures r.Some? ==> forall i, j :: 0 <= i < j < |r.value| && r.value[j] == '.' ==> r.value[i] != ','
  {
    if value == "" then None
    else
      var stripped := RemoveAll(value, '.');
      var r := ReplaceFirst(stripped, ',', '.');
      FirstCommaBecomesPoint(stripped);
      Some(r)
  }

  /** In a text without points, turning the first comma into a point leaves one point at most, with no comma before it. */
  lemma FirstCommaBecomesPoint(s: string)
    requires '.' !in s
    ensures forall i, j :: 0 <= i < j < |s| && ReplaceFirst(s, ',', '.')[i] == '.' ==> ReplaceFirst(s, ',', '.')[j] != '.'
    ensures forall i, j :: 0 <= i < j < |s| && ReplaceFirst(s, ',', '.')[j] == '.' ==> ReplaceFirst(s, ',', '.')[i] != ','
  {
    var r := ReplaceFirst(s, ',', '.');
    forall i, j | 0 <= i < j < |s| && r[i] == '.'
      ensures r[j] != '.'
    {
      assert s[i] == ',';
      assert s[..j][i] == ',';
    }
    forall i, j | 0 <= i < j < |s| && r[j] == '.'
      ensures r[i] != ','
    {
      assert s[j] == ',' && ',' !in s[..j];
      assert s[..j][i] == s[i];
    }
  }

  /** A digit string with a dot between each group of three, as pt-BR formatting writes it. */
  function Grouped(digits: string): string
    decreases |digits|
  {
    if |digits| <= 3 then digits
    else Grouped(digits[..|digits| - 3]) + "." + digits[|digits| - 3..]
  }

  lemma DigitsHaveNoMarks(digits: string)
    requires Text.AllDigits(digits)
    ensures '.' !in digits && ',' !in digits
  {
    assert forall i :: 0 <= i < |digits| ==> digits[i] != '.' && digits[i] != ',' by {
      forall i | 0 <= i < |digits|
        ensures digits[i] != '.' && digits[i] != ','
      {
        assert Text.IsDigit(digits[i]);
      }
    }
  }

  lemma {:induction false} GroupStep(g: string, tail: string)
    requires '.' !in tail
    ensures RemoveAll(g + "." + tail, '.') == RemoveAll(g, '.') + tail
  {
    var a := RemoveAll(g, '.');
    RemoveAllAppend(g, ".", '.');
    PointRemoved();
    assert a + "" == a;
    RemoveAllAppend(g + ".", tail, '.');
    RemoveAllAbsent(tail, '.');
  }

  lemma PointRemoved()
    ensures RemoveAll(".", '.') == ""
  {
    assert "."[1..] == "";
  }

  lemma {:induction false} GroupedUngroups(digits: string)
    requires Text.AllDigits(digits)
    ensures RemoveAll(Grouped(digits), '.') == digits
    ensures ',' !in Grouped(digits)
    decreases |digits|
  {
    DigitsHaveNoMarks(digits);
    if |digits| <= 3 {
      RemoveAllAbsent(digits, '.');
    } else {
      var head := digits[..|digits| - 3];
      var tail := digits[|digits| - 3..];
      assert Text.AllDigits(head) && Text.AllDigits(tail);
      DigitsHaveNoMarks(tail);
      GroupedUngroups(head);
      GroupStep(Grouped(head), tail);
      assert head + tail == digits;
    }
  }

  /**
   * `parseCurrency` reads back a pt-BR amount: `1.234.567,89` becomes
   * `1234567.89`, the integer digits followed by a point and the cents.
   */
  lemma CurrencyRoundTrip(digits: string, cents: string)
    requires Text.AllDigits(digits) && Text.AllDigits(cents) && digits != ""
    ensures CurrencyText(Grouped(digits) + "," + cents) == Some(digits + "." + cents)
  {
    var g := Grouped(digits);
    GroupedUngroups(digits);
    DigitsHaveNoMarks(digits);
    DigitsHaveNoMarks(cents);
    RemoveAllAppend(g + ",", cents, '.');
    RemoveAllAppend(g, ",", '.');
    assert RemoveAll(",", '.') == ",";
    RemoveAllAbsent(cents, '.');
    assert RemoveAll(g + "," + cents, '.') == digits + [','] + cents;
    ReplaceFirstAfter(digits, cents, ',', '.');
  }

  /** A plain digit string passes through unchanged. */
  lemma CurrencyPlainDigits(digits: string)
    requires Text.AllDigits(digits) && digits != ""
    ensures CurrencyText(digits) == Some(digits)
  {
    DigitsHaveNoMarks(digits);
    RemoveAllAbsent(digits, '.');
    var r := ReplaceFirst(digits, ',', '.');
    assert forall i :: 0 <= i < |digits| ==> r[i] == digits[i];
    assert r == digits;
  }

  /** Drops one trailing carriage return. */
  function StripCR(s: string): (r: string)
    ensures |s| > 0 && s[|s| - 1] == '\r' ==> r + "\r" == s
    ensures |s| == 0 || s[|s| - 1] != '\r' ==> r == s
  {
    if |s| > 0 && s[|s| - 1] == '\r' then s[..|s| - 1] else s
  }

  /** `text.split(/\r?\n/)`: split at each line feed, dropping the carriage return just before it. */
  function Lines(text: string): (ls: seq<string>)
    ensures |ls| == |Text.Split(text, '\n')| >= 1
    ensures forall i :: 0 <= i < |ls| ==> '\n' !in ls[i]
  {
    var parts := Text.Split(text, '\n');
    seq(|parts|, i requires 0 <= i < |parts| => if i < |parts| - 1 then StripCR(parts[i]) else parts[i])
  }

  /** The same lines written with a carriage return before each line feed. */
  function WithCR(ls: seq<string>): (r: seq<string>)
    ensures |r| == |ls|
    ensures forall i :: 0 <= i < |ls| ==> r[i] == if i < |ls| - 1 then ls[i] + "\r" else ls[i]
  {
    seq(|ls|, i requires 0 <= i < |ls| => if i < |ls| - 1 then ls[i] + "\r" else ls[i])
  }

  /** Lines joined with LF read back as the same lines, provided none ends in a carriage return. */
  lemma LinesOfLF(ls: seq<string>)
    requires |ls| >= 1
    requires forall i :: 0 <= i < |ls| ==> '\n' !in ls[i]
    requires forall i :: 0 <= i < |ls| - 1 ==> ls[i] == [] || ls[i][|ls[i]| - 1] != '\r'
    ensures Lines(Text.Join(ls, '\n')) == ls
  {
    Text.SplitJoin(ls, '\n');
  }

  /** Lines joined with CRLF read back as the same lines, whatever they end in. */
  lemma LinesOfCRLF(ls: seq<string>)
    requires |ls| >= 1
    requires forall i :: 0 <= i < |ls| ==> '\n' !in ls[i]
    ensures Lines(Text.Join(WithCR(ls), '\n')) == ls
  {
    var crlf := WithCR(ls);
    assert forall i :: 0 <= i < |crlf| ==> '\n' !in crlf[i] by {
      forall i | 0 <= i < |crlf|
        ensures '\n' !in crlf[i]
      {
        if i < |ls| - 1 {
          assert crlf[i] == ls[i] + "\r";
        }
      }
    }
    Text.SplitJoin(crlf, '\n');
    forall i | 0 <= i < |ls| - 1
      ensures StripCR(crlf[i]) == ls[i]
    {
      assert crlf[i] == ls[i] + "\r";
      assert (ls[i] + "\r")[..|ls[i]|] == ls[i];
    }
  }

  /** The property names the destructuring `[descricao, largura, comprimento, areaValor, tipo]` fills. */
  const AreaFieldNames: seq<string> := ["descricao", "largura", "comprimento", "area", "tipo"]

  /** Adds the part at `i` under `name` when the line has that many parts (an `undefined` field is absent). */
  function PutPart(fields: map<string, J>, name: string, parts: seq<string>, i: nat): map<string, J> {
    if i < |parts| then fields[name := JStr(parts[i])] else fields
  }

  /**
   * The area a line's parts make: none when the first part is empty
   * (`if (descricao)`); otherwise the first five parts under the area's field
   * names, extra parts ignored.
   */
  function AreaFromParts(parts: seq<string>): (r: Option<J>)
    requires |parts| >= 1
    ensures r.Some? <==> parts[0] != ""
    ensures r.Some? ==> r.value.JObj? && r.value.fields.Keys <= set n | n in AreaFieldNames
    ensures r.Some? ==> forall i :: 0 <= i < |AreaFieldNames| ==>
      (AreaFieldNames[i] in r.value.fields <==> i < |parts|) &&
      (i < |parts| ==> r.value.fields[AreaFieldNames[i]] == JStr(parts[i]))
  {
    if parts[0] == "" then None
    else
      var m := map["descricao" := JStr(parts[0])];
      var m := PutPart(m, "largura", parts, 1);
      var m := PutPart(m, "comprimento", parts, 2);
      var m := PutPart(m, "area", parts, 3);
      var m := PutPart(m, "tipo", parts, 4);
      Some(JObj(m))
  }

  /** One line of the import: `line.split(';')`, then the area it makes, if any. */
  function AreaFromLine(line: string): (r: Option<J>)
    ensures r.Some? <==> Text.Split(line, ';')[0] != ""
    ensures r.Some? ==>
      r.value.JObj? && "descricao" in r.value.fields &&
      r.value.fields["descricao"] == JStr(Text.Split(line, ';')[0])
  {
    var parts := Text.Split(line, ';');
    var r := AreaFromParts(parts);
    assert r.Some? ==> AreaFieldNames[0] in r.value.fields;
    r
  }

  /** The areas `importarAreasCsv` pushes for `lines`, in order. */
  function ImportedAreas(lines: seq<string>): (r: seq<J>)
    ensures |r| <= |lines|
  {
    if lines == [] then []
    else
      var last := AreaFromLine(lines[|lines| - 1]);
      ImportedAreas(lines[..|lines| - 1]) + (if last.Some? then [last.value] else [])
  }

  /** Every imported area is an object with a non-empty description: blank lines and lines starting with `;` are skipped. */
  lemma {:induction false} ImportedAreasDescribed(lines: seq<string>)
    ensures forall i :: 0 <= i < |ImportedAreas(lines)| ==>
      var a := ImportedAreas(lines)[i];
      a.JObj? && "descricao" in a.fields && a.fields["descricao"].JStr? && a.fields["descricao"].s != ""
  {
    if lines != [] {
      ImportedAreasDescribed(lines[..|lines| - 1]);
      var last := AreaFromLine(lines[|lines| - 1]);
      if last.Some? {
        assert AreaFieldNames[0] == "descricao";
      }
    }
  }

  lemma {:induction false} JoinAvoids(parts: seq<string>, sep: char, c: char)
    requires |parts| >= 1 && c != sep
    requires forall i :: 0 <= i < |parts| ==> c !in parts[i]
    ensures c !in Text.Join(parts, sep)
  {
    if |parts| > 1 {
      JoinAvoids(parts[1..], sep, c);
    }
  }

  /** A full row of the import file: the five fields of an area, as text. */
  datatype AreaRow = AreaRow(descricao: string, largura: string, comprimento: string, area: string, tipo: string)

  function Fields(row: AreaRow): seq<string> {
    [row.descricao, row.largura, row.comprimento, row.area, row.tipo]
  }

  /** The line a row is written as. */
  function AreaLine(row: AreaRow): string {
    Text.Join(Fields(row), ';')
  }

  /** The area object a full row stands for: every field present as a string. */
  function RowArea(row: AreaRow): J {
    JObj(map["descricao" := JStr(row.descricao), "largura" := JStr(row.largura),
             "comprimento" := JStr(row.comprimento), "area" := JStr(row.area), "tipo" := JStr(row.tipo)])
  }

  predicate CleanField(f: string) {
    ';' !in f && '\n' !in f && '\r' !in f
  }

  /** A row worth a line of the import file: a non-empty description and no separators in any field. */
  predicate CleanRow(row: AreaRow) {
    row.descricao != "" && CleanField(row.descricao) && CleanField(row.largura) &&
    CleanField(row.comprimento) && CleanField(row.area) && CleanField(row.tipo)
  }

  /** A clean row written as one line imports as its area. */
  lemma AreaLineRoundTrip(row: AreaRow)
    requires CleanRow(row)
    ensures AreaFromLine(AreaLine(row)) == Some(RowArea(row))
    ensures '\n' !in AreaLine(row) && '\r' !in AreaLine(row)
  {
    var fields := Fields(row);
    assert forall i :: 0 <= i < |fields| ==> CleanField(fields[i]);
    Text.SplitJoin(fields, ';');
    var r := AreaFromParts(fields);
    assert r.Some? && r.value.fields.Keys == set n | n in AreaFieldNames;
    assert r.value.fields == RowArea(row).fields;
    JoinAvoids(fields, ';', '\n');
    JoinAvoids(fields, ';', '\r');
  }

  function AreaLines(rows: seq<AreaRow>): (ls: seq<string>)
    ensures |ls| == |rows| && forall k :: 0 <= k < |rows| ==> ls[k] == AreaLine(rows[k])
  {
    seq(|rows|, k requires 0 <= k < |rows| => AreaLine(rows[k]))
  }

  function RowAreas(rows: seq<AreaRow>): (r: seq<J>)
    ensures |r| == |rows| && forall k :: 0 <= k < |rows| ==> r[k] == RowArea(rows[k])
  {
    seq(|rows|, k requires 0 <= k < |rows| => RowArea(rows[k]))
  }

  lemma ImportedAreasSnoc(lines: seq<string>, line: string)
    ensures ImportedAreas(lines + [line])
         == ImportedAreas(lines) + (if AreaFromLine(line).Some? then [AreaFromLine(line).value] else [])
  {
    assert (lines + [line])[..|lines|] == lines;
  }

  /** One more line of the import appends that line's area, if any. */
  lemma ImportedAreasStep(lines: seq<string>, i: nat)
    requires i < |lines|
    ensures ImportedAreas(lines[..i + 1])
         == ImportedAreas(lines[..i]) + (if AreaFromLine(lines[i]).Some? then [AreaFromLine(lines[i]).value] else [])
  {
    assert lines[..i + 1] == lines[..i] + [lines[i]];
    ImportedAreasSnoc(lines[..i], lines[i]);
  }

  lemma {:induction false} ImportedAreasOfRows(rows: seq<AreaRow>)
    requires forall k :: 0 <= k < |rows| ==> CleanRow(rows[k])
    ensures ImportedAreas(AreaLines(rows)) == RowAreas(rows)
    decreases |rows|
  {
    if rows != [] {
      var init := rows[..|rows| - 1];
      var last := rows[|rows| - 1];
      calc {
        ImportedAreas(AreaLines(rows));
        { assert AreaLines(rows) == AreaLines(init) + [AreaLine(last)]; }
        ImportedAreas(AreaLines(init) + [AreaLine(last)]);
        { ImportedAreasSnoc(AreaLines(init), AreaLine(last)); AreaLineRoundTrip(last); }
        ImportedAreas(AreaLines(init)) + [RowArea(last)];
        { ImportedAreasOfRows(init); }
        RowAreas(init) + [RowArea(last)];
        { assert RowAreas(rows) == RowAreas(init) + [RowArea(last)]; }
        RowAreas(rows);
      }
    }
  }

  /**
   * A file of area rows, one per line with LF endings and no separators inside
   * a field, imports as exactly those rows' areas, in order.
   */
  lemma {:induction false} ImportFile(rows: seq<AreaRow>)
    requires |rows| >= 1
    requires forall k :: 0 <= k < |rows| ==> CleanRow(rows[k])
    ensures ImportedAreas(Lines(Text.Join(AreaLines(rows), '\n'))) == RowAreas(rows)
  {
    var lines := AreaLines(rows);
    forall k | 0 <= k < |lines|
      ensures '\n' !in lines[k] && '\r' !in lines[k]
    {
      AreaLineRoundTrip(rows[k]);
    }
    forall k | 0 <= k < |lines| - 1
      ensures lines[k] == [] || lines[k][|lines[k]| - 1] != '\r'
    {
      if lines[k] != [] {
        assert lines[k][|lines[k]| - 1] in lines[k];
      }
    }
    LinesOfLF(lines);
    ImportedAreasOfRows(rows);
  }

  /**
   * `xs.splice(index, 1)`: a negative index counts from the end (clamped at
   * the start); an index past the end removes nothing.
   */
  function RemoveAt<T>(xs: seq<T>, index: int): (r: seq<T>)
    ensures 0 <= index < |xs| ==> r == xs[..index] + xs[index + 1..]
    ensures -|xs| <= index < 0 ==> r == xs[..|xs| + index] + xs[|xs| + index + 1..]
    ensures index < -|xs| && xs != [] ==> r == xs[1..]
    ensures index >= |xs| || xs == [] ==> r == xs
  {
    var start := if index < 0 then (if |xs| + index < 0 then 0 else |xs| + index) else index;
    if start < |xs| then xs[..start] + xs[start + 1..] else xs
  }

  /** A splice at a valid index takes out exactly that element and keeps the rest. */
  lemma RemoveAtPermutation<T>(xs: seq<T>, index: int)
    requires 0 <= index < |xs|
    ensures |RemoveAt(xs, index)| == |xs| - 1
    ensures multiset(RemoveAt(xs, index)) + multiset{xs[index]} == multiset(xs)
  {
    assert xs == xs[..index] + [xs[index]] + xs[index + 1..];
  }

  /** `s.replace(/\\/g, '/')`. */
  function NormalizeSlashes(s: string): (r: string)
    ensures |r| == |s| && '\\' !in r
    ensures forall i :: 0 <= i < |s| ==> r[i] == if s[i] == '\\' then '/' else s[i]
  {
    seq(|s|, i requires 0 <= i < |s| => if s[i] == '\\' then '/' else s[i])
  }

  lemma NormalizeSlashesIdempotent(s: string)
    ensures NormalizeSlashes(NormalizeSlashes(s)) == NormalizeSlashes(s)
  {
  }

  /**
   * A path joined with backslashes, as the server writes it on Windows, reads
   * on the client as the same segments joined with slashes.
   */
  lemma {:induction false} NormalizeJoin(segments: seq<string>)
    requires |segments| >= 1
    requires forall i :: 0 <= i < |segments| ==> '\\' !in segments[i]
    ensures NormalizeSlashes(Text.Join(segments, '\\')) == Text.Join(segments, '/')
  {
    if |segments| > 1 {
      NormalizeJoin(segments[1..]);
      var tail := Text.Join(segments[1..], '\\');
      var s := segments[0] + ['\\'] + tail;
      var n := NormalizeSlashes(s);
      assert n == NormalizeSlashes(segments[0]) + ['/'] + NormalizeSlashes(tail);
      assert NormalizeSlashes(segments[0]) == segments[0];
    } else {
      assert NormalizeSlashes(segments[0]) == segments[0];
    }
  }
}
