/**
 * The text logic of `csv_to_latex.py`: ordered LaTeX escaping, the row-truncation rule,
 * the table number and name taken from the file name, the `\tabcolsep` choice, the
 * header, body, caption and label lines.
 *
 * A data frame is given as its column names and its rows of cells; a cell is missing
 * (pandas NaN) or holds the text `str(value)` of its value. `format_number` works on
 * floating point and is a parameter `format`; pandas' numeric-column test is a parameter
 * `numeric`.
 */
module CsvToLatex {
  import opened Wrappers
  import opened Strings
  import opened Paths

  // ================================================================ escaping

  /** The replacement passes of `escape_latex`, in order: backslash first. */
  const Replacements: seq<(char, string)> := [
    ('\\', @"\textbackslash{}"),
    ('&', @"\&"),
    ('%', @"\%"),
    ('$', @"\$"),
    ('#', @"\#"),
    ('_', @"\_"),
    ('{', @"\{"),
    ('}', @"\}"),
    ('~', @"\textasciitilde{}"),
    ('^', @"\textasciicircum{}"),
    ('|', @"\textbar{}"),
    ('<', @"\textless{}"),
    ('>', @"\textgreater{}")]

  /** The text after the first `|passes|` replace-all passes, applied in order. */
  function ApplyPasses(passes: seq<(char, string)>, s: string): string
  {
    if passes == [] then s
    else
      var last := passes[|passes| - 1];
      ReplaceAll(ApplyPasses(passes[..|passes| - 1], s), [last.0], last.1)
  }

  predicate IsSpecial(c: char)
  {
    c in {'\\', '&', '%', '$', '#', '_', '{', '}', '~', '^', '|', '<', '>'}
  }

  /**
   * What each character finally becomes: its own replacement, with the braces of the
   * backslash replacement escaped again by the later brace passes.
   */
  function EscapeChar(c: char): string
  {
    match c
    case '\\' => @"\textbackslash\{\}"
    case '&' => @"\&"
    case '%' => @"\%"
    case '$' => @"\$"
    case '#' => @"\#"
    case '_' => @"\_"
    case '{' => @"\{"
    case '}' => @"\}"
    case '~' => @"\textasciitilde{}"
    case '^' => @"\textasciicircum{}"
    case '|' => @"\textbar{}"
    case '<' => @"\textless{}"
    case '>' => @"\textgreater{}"
    case _ => [c]
  }

  /** The reference escaping: every character replaced by its table entry. */
  function Escaped(s: string): string
  {
    if s == [] then [] else Escaped(s[..|s| - 1]) + EscapeChar(s[|s| - 1])
  }

  /** Single-character replace passes distribute over concatenation. */
  lemma {:induction false} ApplyPassesConcat(passes: seq<(char, string)>, a: string, b: string)
    ensures ApplyPasses(passes, a + b) == ApplyPasses(passes, a) + ApplyPasses(passes, b)
  {
    if passes != [] {
      var init := passes[..|passes| - 1];
      var last := passes[|passes| - 1];
      ApplyPassesConcat(init, a, b);
      ReplaceCharConcat(ApplyPasses(init, a), ApplyPasses(init, b), last.0, last.1);
    }
  }

  /** Passes none of whose characters occur in `s` leave it unchanged. */
  lemma {:induction false} ApplyPassesAbsent(passes: seq<(char, string)>, s: string)
    requires forall k :: 0 <= k < |passes| ==> passes[k].0 !in s
    ensures ApplyPasses(passes, s) == s
  {
    if passes != [] {
      ApplyPassesAbsent(passes[..|passes| - 1], s);
      ReplaceCharAbsent(s, passes[|passes| - 1].0, passes[|passes| - 1].1);
    }
  }

  /** Running the passes `ps` and then `qs` is running `ps + qs`. */
  lemma {:induction false} ApplyPassesSplit(ps: seq<(char, string)>, qs: seq<(char, string)>, s: string)
    ensures ApplyPasses(ps + qs, s) == ApplyPasses(qs, ApplyPasses(ps, s))
  {
    if qs == [] {
      assert ps + qs == ps;
    } else {
      var init := qs[..|qs| - 1];
      assert (ps + qs)[..|ps + qs| - 1] == ps + init;
      ApplyPassesSplit(ps, init, s);
    }
  }

  /** In passes with no earlier pass for the same character, that character becomes its pass's replacement, then meets the later passes. */
  lemma PassOfFirst(r: seq<(char, string)>, j: nat)
    requires j < |r|
    requires forall k :: 0 <= k < j ==> r[k].0 != r[j].0
    ensures ApplyPasses(r, [r[j].0]) == ApplyPasses(r[j + 1..], r[j].1)
  {
    var c := r[j].0;
    var before, here, after := r[..j], [r[j]], r[j + 1..];
    assert r == (before + here) + after;
    ApplyPassesSplit(before + here, after, [c]);
    ApplyPassesSplit(before, here, [c]);
    forall k | 0 <= k < j ensures before[k].0 !in [c] { }
    ApplyPassesAbsent(before, [c]);
    OnePass(r[j]);
  }

  /** A single pass turns its own character into its replacement. */
  lemma OnePass(pass: (char, string))
    ensures ApplyPasses([pass], [pass.0]) == pass.1
  {
    assert [pass][..0] == [];
    assert ReplaceAll([pass.0], [pass.0], pass.1) == pass.1 + ReplaceAll([], [pass.0], pass.1);
  }

  /** Each special character has exactly one pass in `Replacements`. */
  lemma PassAt(j: nat)
    requires j < |Replacements|
    ensures ApplyPasses(Replacements, [Replacements[j].0]) == ApplyPasses(Replacements[j + 1..], Replacements[j].1)
  {
    PassOfFirst(Replacements, j);
  }

  /** The two brace passes escape the braces after a brace-free word. */
  lemma BracePasses(word: string)
    requires '{' !in word && '}' !in word
    ensures ApplyPasses([('{', @"\{"), ('}', @"\}")], word + "{}") == word + @"\{\}"
  {
    var open, close := ('{', @"\{"), ('}', @"\}");
    assert [open, close][..1] == [open] && [open][..0] == [];
    OpenBracePass(word);
    CloseBracePass(word);
    assert ApplyPasses([open], word + "{}") == ReplaceAll(word + "{}", "{", @"\{");
    assert ApplyPasses([open, close], word + "{}") == ReplaceAll(ApplyPasses([open], word + "{}"), "}", @"\}");
  }

  /** The `{` pass on a brace-free word followed by `{}`. */
  lemma OpenBracePass(word: string)
    requires '{' !in word
    ensures ReplaceAll(word + "{}", "{", @"\{") == word + @"\{" + "}"
  {
    ReplaceCharConcat(word, "{}", '{', @"\{");
    ReplaceCharAbsent(word, '{', @"\{");
    ReplaceCharAbsent("}", '{', @"\{");
    assert ReplaceAll("{}", "{", @"\{") == @"\{" + ReplaceAll("}", "{", @"\{");
  }

  /** The `}` pass on the result of the `{` pass. */
  lemma CloseBracePass(word: string)
    requires '}' !in word
    ensures ReplaceAll(word + @"\{" + "}", "}", @"\}") == word + @"\{\}"
  {
    ReplaceCharConcat(word + @"\{", "}", '}', @"\}");
    ReplaceCharConcat(word, @"\{", '}', @"\}");
    ReplaceCharAbsent(word, '}', @"\}");
    ReplaceCharAbsent(@"\{", '}', @"\}");
    assert ReplaceAll("}", "}", @"\}") == @"\}" + ReplaceAll("", "}", @"\}");
    assert word + @"\{" + @"\}" == word + @"\{\}";
  }

  /** The passes between the backslash and the braces leave the backslash replacement alone. */
  lemma PassesBeforeBraces()
    ensures ApplyPasses(Replacements[1..6], @"\textbackslash{}") == @"\textbackslash{}"
  {
    var before := Replacements[1..6];
    assert before == [('&', @"\&"), ('%', @"\%"), ('$', @"\$"), ('#', @"\#"), ('_', @"\_")];
    forall k | 0 <= k < |before| ensures before[k].0 !in @"\textbackslash{}" { }
    ApplyPassesAbsent(before, @"\textbackslash{}");
  }

  /** The passes after the braces leave the escaped backslash alone. */
  lemma PassesAfterBraces()
    ensures ApplyPasses(Replacements[8..], @"\textbackslash\{\}") == @"\textbackslash\{\}"
  {
    var after := Replacements[8..];
    assert after == [('~', @"\textasciitilde{}"), ('^', @"\textasciicircum{}"), ('|', @"\textbar{}"),
                     ('<', @"\textless{}"), ('>', @"\textgreater{}")];
    forall k | 0 <= k < |after| ensures after[k].0 !in @"\textbackslash\{\}" { }
    ApplyPassesAbsent(after, @"\textbackslash\{\}");
  }

  /** The backslash replacement meets the two brace passes among the later ones. */
  lemma BackslashPasses()
    ensures ApplyPasses(Replacements[1..], @"\textbackslash{}") == @"\textbackslash\{\}"
  {
    var r := Replacements;
    var before, braces, after := r[1..6], r[6..8], r[8..];
    assert r[1..] == before + braces + after;
    assert braces == [('{', @"\{"), ('}', @"\}")];
    PassesBeforeBraces();
    BracePasses(@"\textbackslash");
    assert @"\textbackslash" + "{}" == @"\textbackslash{}";
    assert @"\textbackslash" + @"\{\}" == @"\textbackslash\{\}";
    PassesAfterBraces();
    ApplyPassesSplit(before, braces, @"\textbackslash{}");
    ApplyPassesSplit(before + braces, after, @"\textbackslash{}");
  }

  /** The later passes leave the replacement of pass `j` alone, so the character ends as that replacement. */
  lemma PassFinal(j: nat)
    requires 1 <= j < |Replacements|
    requires forall k :: j < k < |Replacements| ==> Replacements[k].0 !in Replacements[j].1
    ensures ApplyPasses(Replacements, [Replacements[j].0]) == Replacements[j].1
  {
    var r := Replacements;
    PassAt(j);
    var tail := r[j + 1..];
    forall k | 0 <= k < |tail| ensures tail[k].0 !in r[j].1 {
      assert tail[k] == r[j + 1 + k];
    }
    ApplyPassesAbsent(tail, r[j].1);
  }

  /** `&`, `%`, `$`, `#` and `_` become a backslash and themselves. */
  lemma EscapePunctuation(c: char)
    requires c in {'&', '%', '$', '#', '_'}
    ensures ApplyPasses(Replacements, [c]) == EscapeChar(c)
  {
    var j: nat := if c == '&' then 1 else if c == '%' then 2 else if c == '$' then 3 else if c == '#' then 4 else 5;
    assert Replacements[j].0 == c && Replacements[j].1 == [Replacements[0].0, c];
    PassFinal(j);
  }

  /** The braces become escaped braces. */
  lemma EscapeBrace(c: char)
    requires c == '{' || c == '}'
    ensures ApplyPasses(Replacements, [c]) == EscapeChar(c)
  {
    var j: nat := if c == '{' then 6 else 7;
    PassFinal(j);
  }

  /** `~` and `^` become text commands whose braces no later pass touches. */
  lemma EscapeAccent(c: char)
    requires c == '~' || c == '^'
    ensures ApplyPasses(Replacements, [c]) == EscapeChar(c)
  {
    var j: nat := if c == '~' then 8 else 9;
    PassFinal(j);
  }

  /** `|`, `<` and `>` become text commands whose braces no later pass touches. */
  lemma EscapeBarAngle(c: char)
    requires c == '|' || c == '<' || c == '>'
    ensures ApplyPasses(Replacements, [c]) == EscapeChar(c)
  {
    var j: nat := if c == '|' then 10 else if c == '<' then 11 else 12;
    PassFinal(j);
  }

  /** Every special character ends as its table entry. */
  lemma EscapeSpecialChar(c: char)
    requires IsSpecial(c)
    ensures ApplyPasses(Replacements, [c]) == EscapeChar(c)
  {
    if c == '\\' {
      PassAt(0);
      BackslashPasses();
    } else if c in {'&', '%', '$', '#', '_'} {
      EscapePunctuation(c);
    } else if c == '{' || c == '}' {
      EscapeBrace(c);
    } else if c == '~' || c == '^' {
      EscapeAccent(c);
    } else {
      EscapeBarAngle(c);
    }
  }

  lemma EscapePlainChar(c: char)
    requires !IsSpecial(c)
    ensures ApplyPasses(Replacements, [c]) == [c]
  {
    forall k | 0 <= k < |Replacements| ensures Replacements[k].0 !in [c] {
    }
    ApplyPassesAbsent(Replacements, [c]);
  }

  /** The thirteen in-order passes are exactly the per-character table. */
  lemma {:induction false} ApplyPassesIsEscaped(s: string)
    ensures ApplyPasses(Replacements, s) == Escaped(s)
  {
    if s != [] {
      var init, c := s[..|s| - 1], s[|s| - 1];
      assert s == init + [c];
      ApplyPassesIsEscaped(init);
      ApplyPassesConcat(Replacements, init, [c]);
      if IsSpecial(c) { EscapeSpecialChar(c); } else { EscapePlainChar(c); assert EscapeChar(c) == [c]; }
      assert Escaped(s) == Escaped(init) + EscapeChar(c);
    } else {
      ApplyPassesAbsent(Replacements, s);
    }
  }

  /** Text free of the thirteen special characters is not changed. */
  lemma {:induction false} EscapedPlain(s: string)
    requires forall k :: 0 <= k < |s| ==> !IsSpecial(s[k])
    ensures Escaped(s) == s
  {
    if s != [] {
      EscapedPlain(s[..|s| - 1]);
    }
  }

  /** A lone backslash ends as `\textbackslash\{\}`: its braces are escaped by the later brace passes. */
  lemma EscapeBackslashExample()
    ensures Escaped(@"\") == @"\textbackslash\{\}"
  {
    assert @"\"[..0] == [];
  }

  /** The braces of a later replacement survive: `~` ends as `\textasciitilde{}`. */
  lemma EscapeTildeExample()
    ensures Escaped("~") == @"\textasciitilde{}"
  {
    assert "~"[..0] == [];
  }

  /** Plain characters stay, an underscore is escaped. */
  lemma EscapeUnderscoreExample()
    ensures Escaped("a_b") == @"a\_b"
  {
    assert "a_b"[..2] == "a_" && "a_"[..1] == "a" && "a"[..0] == [];
  }

  /** `escape_latex`: a missing value gives "", any other text goes through the replacement passes in order. */
  method EscapeLatex(text: Option<string>) returns (r: string)
    ensures r == if text.None? then "" else Escaped(text.value)
  {
    if text.None? {
      return "";
    }
    r := text.value;
    var i := 0;
    while i < |Replacements|
      invariant 0 <= i <= |Replacements|
      invariant r == ApplyPasses(Replacements[..i], text.value)
    {
      assert Replacements[..i + 1][..i] == Replacements[..i];
      r := ReplaceAll(r, [Replacements[i].0], Replacements[i].1);
      i := i + 1;
    }
    assert Replacements[..i] == Replacements;
    ApplyPassesIsEscaped(text.value);
  }

  // ================================================================ truncation

  /** A data cell: pandas NaN, or the text of its value. */
  datatype Cell = Missing | Text(s: string)

  type Row = seq<Cell>

  /** `df.head(n)`: the first n rows, or all but the last -n rows for negative n. */
  function Head(rows: seq<Row>, n: int): (r: seq<Row>)
    ensures |r| <= |rows| && r == rows[..|r|]
  {
    if n >= 0 then rows[..if n < |rows| then n else |rows|]
    else rows[..if |rows| + n > 0 then |rows| + n else 0]
  }

  /** The frame `csv_to_latex` renders, after truncating to at most `maxRows` data rows. */
  function Truncate(rows: seq<Row>, ncols: nat, maxRows: int): seq<Row>
  {
    if |rows| > maxRows then
      if maxRows > 5 then rows[..maxRows - 2] + [SeparatorRow(ncols)] + rows[|rows| - 2..]
      else Head(rows, maxRows)
    else rows
  }

  function SeparatorRow(ncols: nat): (r: Row)
    ensures |r| == ncols && forall k :: 0 <= k < ncols ==> r[k] == Text("...")
  {
    seq(ncols, _ => Text("..."))
  }

  /**
   * Past the limit with `maxRows > 5`: the first `maxRows - 2` rows, one separator row, the last two
   * rows, `maxRows + 1` rows in all. Past the limit otherwise: the first `maxRows` rows (`head` of a
   * non-positive count keeps fewer). Within the limit: the frame as it is.
   */
  lemma TruncateShape(rows: seq<Row>, ncols: nat, maxRows: int)
    ensures |rows| > maxRows > 5 ==> var t := Truncate(rows, ncols, maxRows);
      |t| == maxRows + 1 && t[..maxRows - 2] == rows[..maxRows - 2]
      && t[maxRows - 2] == SeparatorRow(ncols) && t[maxRows - 1..] == rows[|rows| - 2..]
    ensures |rows| > maxRows && 0 <= maxRows <= 5 ==> Truncate(rows, ncols, maxRows) == rows[..maxRows]
    ensures |rows| > maxRows && maxRows < 0 ==> |Truncate(rows, ncols, maxRows)| == if |rows| + maxRows > 0 then |rows| + maxRows else 0
    ensures |rows| <= maxRows ==> Truncate(rows, ncols, maxRows) == rows
  {
    if |rows| > maxRows > 5 {
      var t := Truncate(rows, ncols, maxRows);
      var top, bottom := rows[..maxRows - 2], rows[|rows| - 2..];
      assert t == top + [SeparatorRow(ncols)] + bottom;
      assert t[..maxRows - 2] == top;
      assert t[maxRows - 1..] == bottom;
    }
  }

  // ================================================================ file name

  /** The length of the run of ASCII digits at the start of `s`. */
  function DigitRun(s: string): (k: nat)
    ensures k <= |s| && (forall i :: 0 <= i < k ==> IsDigit(s[i])) && (k < |s| ==> !IsDigit(s[k]))
  {
    if s != [] && IsDigit(s[0]) then 1 + DigitRun(s[1..]) else 0
  }

  /**
   * `re.match(r'^(\d+)_(.*)$', stem)`: digits, an underscore, then text without line breaks, except
   * that `$` also matches before one final newline, which is then not part of group 2.
   */
  function MatchNumbered(stem: string): Option<(string, string)>
  {
    var k := DigitRun(stem);
    if k == 0 || k == |stem| || stem[k] != '_' then None
    else
      var rest := stem[k + 1..];
      var body := if rest != [] && rest[|rest| - 1] == '\n' then rest[..|rest| - 1] else rest;
      if '\n' in body then None else Some((stem[..k], body))
  }

  /** (table_number, table_name): the digits without leading zeros and the name with spaces for `_`, or ("", stem). */
  function ParseStem(stem: string): (string, string)
  {
    match MatchNumbered(stem)
    case Some((digits, name)) => (LStrip(digits, {'0'}), ReplaceAll(name, "_", " "))
    case None => ("", stem)
  }

  lemma MatchNumberedOf(digits: string, name: string)
    requires digits != [] && forall i :: 0 <= i < |digits| ==> IsDigit(digits[i])
    requires '\n' !in name
    ensures MatchNumbered(digits + "_" + name) == Some((digits, name))
  {
    var stem := digits + ("_" + name);
    assert stem == digits + "_" + name;
    DigitRunPrefix(digits, "_" + name);
    assert stem[|digits|] == '_';
    assert stem[|digits| + 1..] == name && stem[..|digits|] == digits;
    MatchNumberedAt(stem, |digits|);
  }

  /** The match once the digit run, the underscore after it and a one-line remainder are known. */
  lemma MatchNumberedAt(stem: string, k: nat)
    requires DigitRun(stem) == k && 0 < k < |stem| && stem[k] == '_' && '\n' !in stem[k + 1..]
    ensures MatchNumbered(stem) == Some((stem[..k], stem[k + 1..]))
  {
    var rest := stem[k + 1..];
    if rest != [] {
      assert rest[|rest| - 1] in rest;
    }
  }

  /** A stem made of digits, `_` and a one-line name parses back into the number and the name. */
  lemma ParseStemNumbered(digits: string, name: string)
    requires digits != [] && forall i :: 0 <= i < |digits| ==> IsDigit(digits[i])
    requires '\n' !in name
    ensures ParseStem(digits + "_" + name) == (LStrip(digits, {'0'}), ReplaceAll(name, "_", " "))
  {
    MatchNumberedOf(digits, name);
  }

  lemma {:induction false} DigitRunPrefix(digits: string, rest: string)
    requires forall i :: 0 <= i < |digits| ==> IsDigit(digits[i])
    requires rest != [] && !IsDigit(rest[0])
    ensures DigitRun(digits + rest) == |digits|
  {
    if digits != [] {
      assert (digits + rest)[1..] == digits[1..] + rest;
      DigitRunPrefix(digits[1..], rest);
    } else {
      assert digits + rest == rest;
    }
  }

  /** A stem that does not start with a digit keeps no number and is its own name. */
  lemma ParseStemPlain(stem: string)
    requires stem == [] || !IsDigit(stem[0])
    ensures ParseStem(stem) == ("", stem)
  {
  }

  /** `Path(csv_file).stem`. */
  function CsvStem(csvPath: string): string
  {
    Stem(Basename(csvPath))
  }

  // ================================================================ layout lines

  /** The `\tabcolsep` width in points for a column count. */
  function TabColSep(ncols: int): (pt: int)
    ensures pt in {2, 3, 4, 6}
    ensures ncols > 8 <==> pt == 2
    ensures ncols <= 4 <==> pt == 6
    ensures 6 < ncols <= 8 <==> pt == 3
  {
    if ncols > 8 then 2 else if ncols > 6 then 3 else if ncols > 4 then 4 else 6
  }

  /** More columns never get wider spacing. */
  lemma TabColSepMonotone(a: int, b: int)
    requires a <= b
    ensures TabColSep(b) <= TabColSep(a)
  {
  }

  function TabColSepLine(ncols: int): string
  {
    @"\setlength{\tabcolsep}{" + ShowInt(TabColSep(ncols)) + "pt}"
  }

  /** One header cell: escaped, `\_` turned back into a space, title-cased, in bold. */
  function HeaderCell(col: string): string
  {
    @"\textbf{" + Title(ReplaceAll(Escaped(col), @"\_", " ")) + "}"
  }

  function HeaderLine(columns: seq<string>): string
  {
    Join(HeaderCells(columns), " & ") + @" \\"
  }

  /** The header cells, one per column, in order. */
  function HeaderCells(columns: seq<string>): (cells: seq<string>)
    ensures |cells| == |columns|
    ensures forall j :: 0 <= j < |columns| ==> cells[j] == HeaderCell(columns[j])
  {
    if columns == [] then [] else HeaderCells(columns[..|columns| - 1]) + [HeaderCell(columns[|columns| - 1])]
  }

  /** A row is printed as the separator when any of its cells reads `...`. */
  predicate IsSeparatorRow(row: Row)
  {
    exists j :: 0 <= j < |row| && row[j] == Text("...")
  }

  /** Extending a row by one cell makes it a separator row exactly when it was one or the new cell is `...`. */
  lemma SeparatorPrefix(row: Row, j: nat)
    requires j < |row|
    ensures IsSeparatorRow(row[..j + 1]) <==> IsSeparatorRow(row[..j]) || row[j] == Text("...")
  {
    var longer := row[..j + 1];
    assert forall k :: 0 <= k < j ==> longer[k] == row[..j][k];
    assert longer[j] == row[j];
  }

  /** A non-separator cell as printed: `--` when missing, else its formatted text escaped. */
  function CellText(c: Cell, format: string -> string): string
  {
    match c
    case Missing => "--"
    case Text(v) => Escaped(format(v))
  }

  /** The cells of a row as printed, in order. */
  function CellTexts(row: Row, format: string -> string): (values: seq<string>)
    ensures |values| == |row|
    ensures forall j :: 0 <= j < |row| ==> values[j] == CellText(row[j], format)
  {
    if row == [] then [] else CellTexts(row[..|row| - 1], format) + [CellText(row[|row| - 1], format)]
  }

  function OmittedLine(ncols: int, originalRows: int, maxRows: int): string
  {
    @"\multicolumn{" + ShowInt(ncols) + @"}{c}{\textit{... " + ShowInt(originalRows - maxRows + 1)
      + @" rows omitted ...}} \\"
  }

  /** The lines printed for the row at position `idx`. */
  function RowLines(idx: int, row: Row, ncols: int, originalRows: int, maxRows: int, format: string -> string): seq<string>
  {
    if IsSeparatorRow(row) then [@"\midrule", OmittedLine(ncols, originalRows, maxRows), @"\midrule"]
    else
      (if idx % 2 == 1 then [@"\rowcolor{gray!10}"] else [])
      + [Join(CellTexts(row, format), " & ") + @" \\"]
  }

  /** The body lines for `rows`, the first of which sits at position `start`. */
  function BodyLines(rows: seq<Row>, start: int, ncols: int, originalRows: int, maxRows: int, format: string -> string): seq<string>
  {
    if rows == [] then []
    else
      BodyLines(rows[..|rows| - 1], start, ncols, originalRows, maxRows, format)
        + RowLines(start + |rows| - 1, rows[|rows| - 1], ncols, originalRows, maxRows, format)
  }

  /**
   * Row colouring: a separator row prints as rule / omitted-count / rule; any other row prints as
   * one line of its cells joined by ` & `, preceded by `\rowcolor{gray!10}` exactly when its index is odd.
   */
  lemma RowLinesShape(idx: int, row: Row, ncols: int, originalRows: int, maxRows: int, format: string -> string)
    ensures var ls := RowLines(idx, row, ncols, originalRows, maxRows, format);
      (IsSeparatorRow(row) ==> |ls| == 3 && ls[0] == ls[2] == @"\midrule" && ls[1] == OmittedLine(ncols, originalRows, maxRows))
      && (!IsSeparatorRow(row) ==> (|ls| == 1 + idx % 2
        && (ls[0] == @"\rowcolor{gray!10}" <==> idx % 2 == 1)
        && EndsWith(ls[|ls| - 1], @" \\")))
  {
    var ls := RowLines(idx, row, ncols, originalRows, maxRows, format);
    if !IsSeparatorRow(row) {
      var line := ls[|ls| - 1];
      assert line[|line| - 3..] == @" \\";
      if idx % 2 != 1 {
        assert ls[0] == line;
        assert |line| >= 3 && line[|line| - 1] == '\\';
      }
    }
  }

  // ================================================================ caption and label

  /** The truncation note. */
  function TruncationNote(maxRows: int, originalRows: int): string
  {
    @"\textit{Note: Table truncated to " + ShowInt(maxRows) + " rows from " + ShowInt(originalRows)
      + " total rows for display purposes.}"
  }

  /** The caption lines: a given caption (with the note spliced in before its closing braces when truncated) or the default. */
  function CaptionLines(caption: string, truncated: bool, maxRows: int, originalRows: int, tableNumber: string, tableName: string): seq<string>
  {
    if caption != "" then
      [if truncated then RStrip(caption, {'}'}) + " " + TruncationNote(maxRows, originalRows) + "}" else caption]
    else
      [if tableNumber != "" then @"\caption{\textbf{Table " + tableNumber + ": " + Title(tableName) + "}"
       else @"\caption{\textbf{" + Title(tableName) + "}",
       @"\\",
       if truncated then TruncationNote(maxRows, originalRows) else "Data table generated from CSV file.",
       "}"]
  }

  /** The label line: the given label, or `tab:<stem>` when none is given. */
  function LabelLine(labelText: string, stem: string): (line: string)
    ensures labelText == "" ==> line == @"\label{tab:" + stem + "}"
    ensures labelText != "" ==> line == @"\label{" + labelText + "}"
  {
    if labelText != "" then @"\label{" + labelText + "}" else @"\label{tab:" + stem + "}"
  }

  /**
   * A given caption of a truncated table keeps its text up to its closing braces, and ends with the
   * note and a single closing brace.
   */
  lemma CaptionNoteSpliced(caption: string, maxRows: int, originalRows: int, tableNumber: string, tableName: string)
    requires caption != ""
    ensures var ls := CaptionLines(caption, true, maxRows, originalRows, tableNumber, tableName);
      |ls| == 1 && StartsWith(ls[0], RStrip(caption, {'}'}))
      && EndsWith(ls[0], TruncationNote(maxRows, originalRows) + "}")
  {
    var head := RStrip(caption, {'}'});
    var note := TruncationNote(maxRows, originalRows);
    assert CaptionLines(caption, true, maxRows, originalRows, tableNumber, tableName) == [head + " " + note + "}"];
    SplicedAffixes(head, note);
  }

  /** `head + " " + note + "}"` starts with `head` and ends with `note + "}"`. */
  lemma SplicedAffixes(head: string, note: string)
    ensures StartsWith(head + " " + note + "}", head) && EndsWith(head + " " + note + "}", note + "}")
  {
    var c := head + " " + note + "}";
    assert c == (head + " ") + (note + "}");
    ConcatAffixes(head + " ", note + "}");
    assert c == head + (" " + note + "}");
    ConcatAffixes(head, " " + note + "}");
  }

  /** Without a caption, the default caption is four lines: title, line break, note or default text, closing brace. */
  lemma DefaultCaptionShape(truncated: bool, maxRows: int, originalRows: int, tableNumber: string, tableName: string)
    ensures var ls := CaptionLines("", truncated, maxRows, originalRows, tableNumber, tableName);
      |ls| == 4 && ls[1] == @"\\" && ls[3] == "}"
      && ls[2] == (if truncated then TruncationNote(maxRows, originalRows) else "Data table generated from CSV file.")
      && StartsWith(ls[0], @"\caption{\textbf{")
  {
  }

  // ================================================================ the document

  /**
   * The cells loop of one row: whether the row is the separator, and, for any other row, each cell
   * as printed.
   */
  method RenderCells(row: Row, format: string -> string) returns (values: seq<string>, isSeparator: bool)
    ensures isSeparator == IsSeparatorRow(row)
    ensures !isSeparator ==> values == CellTexts(row, format)
  {
    values := [];
    isSeparator := false;
    var j := 0;
    while j < |row|
      invariant 0 <= j <= |row|
      invariant isSeparator == IsSeparatorRow(row[..j])
      invariant !isSeparator ==> values == CellTexts(row[..j], format)
    {
      var val := row[j];
      SeparatorPrefix(row, j);
      assert row[..j + 1][..j] == row[..j];
      if val == Text("...") {
        isSeparator := true;
      }
      var shown: string;
      if val.Text? {
        if !isSeparator {
          shown := EscapeLatex(Some(format(val.s)));
        } else {
          shown := val.s;
        }
      } else {
        shown := "--";
      }
      values := values + [shown];
      j := j + 1;
    }
    assert row[..j] == row;
  }

  /** The rows loop of `csv_to_latex`: the lines printed for every row of the frame, in order. */
  method RenderBody(rows: seq<Row>, ncols: int, originalRows: int, maxRows: int, format: string -> string)
    returns (lines: seq<string>)
    ensures lines == BodyLines(rows, 0, ncols, originalRows, maxRows, format)
  {
    lines := [];
    var idx := 0;
    while idx < |rows|
      invariant 0 <= idx <= |rows|
      invariant lines == BodyLines(rows[..idx], 0, ncols, originalRows, maxRows, format)
    {
      var rowLines := RenderRow(idx, rows[idx], ncols, originalRows, maxRows, format);
      assert rows[..idx + 1][..idx] == rows[..idx] && rows[..idx + 1][idx] == rows[idx];
      lines := lines + rowLines;
      idx := idx + 1;
    }
    assert rows[..idx] == rows;
  }

  /** One turn of the rows loop: the separator block, or the optional row colour and the joined cells. */
  method RenderRow(idx: int, row: Row, ncols: int, originalRows: int, maxRows: int, format: string -> string)
    returns (lines: seq<string>)
    ensures lines == RowLines(idx, row, ncols, originalRows, maxRows, format)
  {
    var values, isSeparator := RenderCells(row, format);
    if isSeparator {
      lines := [@"\midrule", OmittedLine(ncols, originalRows, maxRows), @"\midrule"];
    } else {
      lines := [];
      if idx % 2 == 1 {
        lines := lines + [@"\rowcolor{gray!10}"];
      }
      lines := lines + [Join(values, " & ") + @" \\"];
    }
  }

  /** The header loop: each column name escaped, spaced, title-cased and in bold, joined into one line. */
  method RenderHeader(columns: seq<string>) returns (line: string)
    ensures line == HeaderLine(columns)
  {
    var headers: seq<string> := [];
    var j := 0;
    while j < |columns|
      invariant 0 <= j <= |columns|
      invariant headers == HeaderCells(columns[..j])
    {
      var header := EscapeLatex(Some(columns[j]));
      header := Title(ReplaceAll(header, @"\_", " "));
      assert columns[..j + 1][..j] == columns[..j];
      headers := headers + [@"\textbf{" + header + "}"];
      j := j + 1;
    }
    assert columns[..j] == columns;
    line := Join(headers, " & ") + @" \\";
  }

  /** Column alignment: `r` for a column pandas reads as numeric, `l` otherwise. */
  function TabularSpec(columns: seq<string>, rows: seq<Row>, numeric: seq<Cell> -> bool): string
  {
    seq(|columns|, j requires 0 <= j < |columns| =>
      if numeric(seq(|rows|, i requires 0 <= i < |rows| => if j < |rows[i]| then rows[i][j] else Missing)) then 'r' else 'l')
  }

  /** The lines before the header: bookmark, table environment, font size, spacing, resize box, tabular. */
  function OpeningLines(number: string, stem: string, ncols: int, spec: string): seq<string>
  {
    [@"\pdfbookmark[2]{Table " + number + "}{table_" + stem + "}", @"\begin{table}[htbp]", @"\centering",
     @"\footnotesize", TabColSepLine(ncols), @"\resizebox{\textwidth}{!}{%",
     @"\begin{tabular}{" + spec + "}", @"\toprule"]
  }

  /** The lines closing the tabular and the resize box, then the caption width. */
  const TabularEnd: seq<string> := [@"\bottomrule", @"\end{tabular}", "}", @"\captionsetup{width=\textwidth}"]

  /** The label line and the lines closing the table environment. */
  function EndingLines(labelText: string, stem: string): seq<string>
  {
    [LabelLine(labelText, stem), @"\end{table}", "", @"\restoregeometry"]
  }

  /**
   * The document `csv_to_latex` writes for a parsed frame, as its list of lines. `caption` and
   * `labelText` are "" when not given.
   */
  function TableLines(csvPath: string, columns: seq<string>, rows: seq<Row>, caption: string, labelText: string,
                      maxRows: int, format: string -> string, numeric: seq<Cell> -> bool): seq<string>
  {
    var stem := CsvStem(csvPath);
    var (number, name) := ParseStem(stem);
    var df := Truncate(rows, |columns|, maxRows);
    OpeningLines(number, stem, |columns|, TabularSpec(columns, df, numeric))
      + [HeaderLine(columns), @"\midrule"]
      + BodyLines(df, 0, |columns|, |rows|, maxRows, format)
      + TabularEnd
      + CaptionLines(caption, |rows| > maxRows, maxRows, |rows|, number, name)
      + EndingLines(labelText, stem)
  }

  /**
   * The document's frame: it opens with the bookmark, the table environment and the tabular, carries
   * the header on line 8 and the body lines from line 10 on, and closes with the label,
   * `\end{table}`, an empty line and `\restoregeometry`.
   */
  lemma TableLinesFrame(csvPath: string, columns: seq<string>, rows: seq<Row>, caption: string, labelText: string,
                        maxRows: int, format: string -> string, numeric: seq<Cell> -> bool)
    ensures var ls := TableLines(csvPath, columns, rows, caption, labelText, maxRows, format, numeric);
      var stem := CsvStem(csvPath);
      var df := Truncate(rows, |columns|, maxRows);
      var body := BodyLines(df, 0, |columns|, |rows|, maxRows, format);
      |ls| >= 19 + |body|
      && ls[..8] == OpeningLines(ParseStem(stem).0, stem, |columns|, TabularSpec(columns, df, numeric))
      && ls[8] == HeaderLine(columns) && ls[9] == @"\midrule"
      && ls[10..10 + |body|] == body
      && ls[|ls| - 4..] == EndingLines(labelText, stem)
  {
    var stem := CsvStem(csvPath);
    var (number, name) := ParseStem(stem);
    var df := Truncate(rows, |columns|, maxRows);
    var opening := OpeningLines(number, stem, |columns|, TabularSpec(columns, df, numeric));
    var body := BodyLines(df, 0, |columns|, |rows|, maxRows, format);
    var caps := CaptionLines(caption, |rows| > maxRows, maxRows, |rows|, number, name);
    FrameSlices(opening, [HeaderLine(columns), @"\midrule"], body, TabularEnd, caps, EndingLines(labelText, stem));
  }

  /** Slicing the six-part concatenation of a document recovers its parts. */
  lemma FrameSlices<T>(opening: seq<T>, header: seq<T>, body: seq<T>, closing: seq<T>, caps: seq<T>, ending: seq<T>)
    requires |opening| == 8 && |header| == 2
    ensures var ls := opening + header + body + closing + caps + ending;
      ls[..8] == opening && ls[8] == header[0] && ls[9] == header[1]
      && ls[10..10 + |body|] == body && ls[|ls| - |ending|..] == ending
  {
    var ls := opening + header + body + closing + caps + ending;
    assert ls == (opening + header) + body + (closing + caps + ending);
  }

  /** `csv_to_latex` from the parsed frame to the lines written to the output file. */
  method CsvToLatexLines(csvPath: string, columns: seq<string>, rows: seq<Row>, caption: string, labelText: string,
                         maxRows: int, format: string -> string, numeric: seq<Cell> -> bool)
    returns (lines: seq<string>)
    ensures lines == TableLines(csvPath, columns, rows, caption, labelText, maxRows, format, numeric)
  {
    var originalRows := |rows|;
    var truncated := originalRows > maxRows;
    var df := Truncate(rows, |columns|, maxRows);
    var baseName := CsvStem(csvPath);
    var (tableNumber, tableName) := ParseStem(baseName);
    lines := [@"\pdfbookmark[2]{Table " + tableNumber + "}{table_" + baseName + "}"];
    lines := lines + [@"\begin{table}[htbp]", @"\centering", @"\footnotesize", TabColSepLine(|columns|)];
    lines := lines + [@"\resizebox{\textwidth}{!}{%"];
    lines := lines + [@"\begin{tabular}{" + TabularSpec(columns, df, numeric) + "}", @"\toprule"];
    assert lines == OpeningLines(tableNumber, baseName, |columns|, TabularSpec(columns, df, numeric));
    var header := RenderHeader(columns);
    lines := lines + [header, @"\midrule"];
    var body := RenderBody(df, |columns|, originalRows, maxRows, format);
    lines := lines + body;
    lines := lines + [@"\bottomrule", @"\end{tabular}", "}", @"\captionsetup{width=\textwidth}"];
    lines := lines + CaptionLines(caption, truncated, maxRows, originalRows, tableNumber, tableName);
    lines := lines + [LabelLine(labelText, baseName), @"\end{table}", "", @"\restoregeometry"];
  }

  /**
   * `csv_to_latex` end to end: `frame` is the parsed CSV (`None` when reading fails) and `writeOk`
   * whether writing the output succeeds. It reports success, and the text written is the lines
   * joined by newlines.
   */
  method CsvToLatexFile(csvPath: string, frame: Option<(seq<string>, seq<Row>)>, caption: string, labelText: string,
                        maxRows: int, format: string -> string, numeric: seq<Cell> -> bool, writeOk: bool)
    returns (ok: bool, written: Option<string>)
    ensures frame.None? ==> !ok && written.None?
    ensures frame.Some? ==> ok == writeOk
    ensures frame.Some? && writeOk ==>
      written == Some(Join(TableLines(csvPath, frame.value.0, frame.value.1, caption, labelText, maxRows, format, numeric), "\n"))
    ensures !ok ==> written.None?
  {
    if frame.None? {
      return false, None;
    }
    var lines := CsvToLatexLines(csvPath, frame.value.0, frame.value.1, caption, labelText, maxRows, format, numeric);
    if !writeOk {
      return false, None;
    }
    return true, Some(Join(lines, "\n"));
  }
}
