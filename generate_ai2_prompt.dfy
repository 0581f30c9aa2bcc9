/**
 * `generate_ai2_prompt.py`: read the manuscript's title, keywords, authors and abstract from
 * their `.tex` files with comment lines removed, and fill one of two prompt templates with them.
 *
 * The file system is a parameter: a `.tex` file is its content, or nothing when it is missing.
 */
module GenerateAi2Prompt {
  import opened Wrappers
  import opened Strings

  // ---------------------------------------------------------------- reading a .tex file

  /** A line whose stripped form starts with `%` is a comment line and is dropped. */
  predicate IsCommentLine(line: string)
  {
    StartsWith(Strip(line), "%")
  }

  /** The list comprehension `[line for line in lines if not drop(line)]`, in order. */
  function DropLines(lines: seq<string>, drop: string -> bool): seq<string>
  {
    if lines == [] then []
    else if drop(lines[0]) then DropLines(lines[1..], drop)
    else [lines[0]] + DropLines(lines[1..], drop)
  }

  /** `read_tex_content`: a missing file reads as empty; otherwise the lines that are not comment
    * lines, rejoined and stripped. */
  function ReadTexContent(file: Option<string>): string
  {
    match file
    case None => ""
    case Some(content) => Strip(Join(DropLines(Split(content, "\n"), IsCommentLine), "\n"))
  }

  /** A line survives exactly when it was a line of the input and is not dropped. */
  lemma {:induction false} DropLinesMembers(lines: seq<string>, drop: string -> bool, x: string)
    ensures x in DropLines(lines, drop) <==> x in lines && !drop(x)
  {
    if lines != [] {
      DropLinesMembers(lines[1..], drop, x);
      assert lines == [lines[0]] + lines[1..];
    }
  }

  /** Filtering commutes with concatenation, so the kept lines stay in their original order. */
  lemma {:induction false} DropLinesAppend(a: seq<string>, b: seq<string>, drop: string -> bool)
    ensures DropLines(a + b, drop) == DropLines(a, drop) + DropLines(b, drop)
  {
    if a != [] {
      assert (a + b)[0] == a[0];
      assert (a + b)[1..] == a[1..] + b;
      DropLinesAppend(a[1..], b, drop);
    } else {
      assert a + b == b;
    }
  }

  /** Lines of which none is dropped all survive. */
  lemma {:induction false} DropLinesNone(lines: seq<string>, drop: string -> bool)
    requires forall line :: line in lines ==> !drop(line)
    ensures DropLines(lines, drop) == lines
  {
    if lines != [] {
      assert lines[0] in lines;
      DropLinesNone(lines[1..], drop);
      assert lines == [lines[0]] + lines[1..];
    }
  }

  /** The content read is stripped: it neither starts nor ends with whitespace. */
  lemma ReadTexStripped(file: Option<string>)
    ensures var r := ReadTexContent(file);
      (file.None? ==> r == "") && (r == [] || (r[0] !in Whitespace && r[|r| - 1] !in Whitespace))
  {
    if file.Some? {
      StripCharsEnds(Join(DropLines(Split(file.value, "\n"), IsCommentLine), "\n"), Whitespace);
    }
  }

  /** A file without comment lines reads as its whole content, stripped. */
  lemma ReadTexWithoutComments(content: string)
    requires forall line :: line in Split(content, "\n") ==> !IsCommentLine(line)
    ensures ReadTexContent(Some(content)) == Strip(content)
  {
    var lines := Split(content, "\n");
    DropLinesNone(lines, IsCommentLine);
    JoinSplit(content, "\n");
    assert Join(DropLines(lines, IsCommentLine), "\n") == content;
  }

  /** A line read back is a line of the file, and never a comment line. */
  lemma ReadTexLines(content: string, x: string)
    ensures x in DropLines(Split(content, "\n"), IsCommentLine)
        <==> x in Split(content, "\n") && !IsCommentLine(x)
  {
    DropLinesMembers(Split(content, "\n"), IsCommentLine, x);
  }

  /** A leading comment line, up to its newline, makes no difference to what is read. */
  lemma ReadTexDropsLeadingComment(comment: string, rest: string)
    requires '\n' !in comment && IsCommentLine(comment)
    ensures ReadTexContent(Some(comment + "\n" + rest)) == ReadTexContent(Some(rest))
  {
    var s := comment + "\n" + rest;
    forall i | 0 <= i < |comment| ensures !OccursAt(s, "\n", i) {
      assert s[i..i + 1] == [comment[i]];
      assert comment[i] != '\n';
    }
    SplitSeparated(comment, "\n", rest);
    assert Split(s, "\n") == [comment] + Split(rest, "\n");
  }

  /** A line whose first character is neither blank nor `%`, nor its last blank, is kept. */
  lemma TextLine(line: string)
    requires |line| > 0 && line[0] !in Whitespace && line[0] != '%'
    requires line[|line| - 1] !in Whitespace
    ensures !IsCommentLine(line)
  {
    StripCharsUnchanged(line, Whitespace);
    assert Strip(line)[0] != '%';
  }

  /** A line starting with `%` and not ending in a blank is a comment line. */
  lemma PercentLine(text: string)
    requires |text| > 0 && text[0] == '%' && text[|text| - 1] !in Whitespace
    ensures IsCommentLine(text)
  {
    StripCharsUnchanged(text, Whitespace);
    assert text[..1] == "%";
  }

  /** A leading blank does not change whether a line is a comment line. */
  lemma LeadingBlank(line: string)
    requires |line| > 0 && line[0] in Whitespace
    ensures IsCommentLine(line) == IsCommentLine(line[1..])
  {
    StripCharsDropFirst(line, Whitespace);
  }

  /** A `%` after blanks still makes a comment line. */
  lemma {:induction false} IndentedComment(indent: string, text: string)
    requires forall i :: 0 <= i < |indent| ==> indent[i] in Whitespace
    requires |text| > 0 && text[0] == '%' && text[|text| - 1] !in Whitespace
    ensures IsCommentLine(indent + text)
    decreases |indent|
  {
    var line := indent + text;
    if indent == [] {
      assert line == text;
      PercentLine(text);
    } else {
      LeadingBlank(line);
      assert line[1..] == indent[1..] + text;
      IndentedComment(indent[1..], text);
    }
  }

  /** A `%` later in a line does not make it a comment line. */
  lemma TextLineExamples()
    ensures !IsCommentLine("\\section{Intro}")
    ensures !IsCommentLine("50% of cases")
  {
    TextLine("\\section{Intro}");
    TextLine("50% of cases");
  }

  /** An indented `%` does. */
  lemma IndentedCommentExample()
    ensures IsCommentLine("  % draft")
  {
    IndentedComment("  ", "% draft");
    assert "  " + "% draft" == "  % draft";
  }

  /** An indented comment line goes; a line with a `%` after other text stays. */
  lemma ReadTexExample()
    ensures DropLines(["\\section{Intro}", "  % draft", "50% of cases"], IsCommentLine)
         == ["\\section{Intro}", "50% of cases"]
  {
    var lines := ["\\section{Intro}", "  % draft", "50% of cases"];
    TextLineExamples();
    IndentedCommentExample();
    assert lines[1..][1..] == [lines[2]];
  }

  // ---------------------------------------------------------------- the prompt

  /** The words both requests open with, up to where they part. */
  const SharedRequest: string := "We are currently writing a paper manuscript with the information below. Please find "

  /** The request opening the `coauthors` prompt. */
  const CoauthorsRequest: string := SharedRequest + "(partially) "
    + "related papers published by at least one of the authors of our manuscript, "
    + "particularly focusing on their work related to the topics covered in this manuscript."

  /** The request opening every other prompt (`related`, the default). */
  const RelatedRequest: string := SharedRequest + "related papers.:"

  /** The opening request for a search type. */
  function Request(searchType: string): string
  {
    if searchType == "coauthors" then CoauthorsRequest else RelatedRequest
  }

  /** The four fields, each after a blank line, common to both templates. */
  function PromptFields(title: string, keywords: string, authors: string, summary: string): string
  {
    "\n\nTitle: " + title + "\n\nKeywords: " + keywords + "\n\nAuthors: " + authors
      + "\n\nAbstract: " + summary
  }

  /** `generate_ai2_prompt`: the `coauthors` template when asked for it, the related one otherwise. */
  function GeneratePrompt(title: string, keywords: string, authors: string, summary: string,
                          searchType: string): string
  {
    Request(searchType) + PromptFields(title, keywords, authors, summary)
  }

  /** Right after the shared words, the coauthors request has `(` and the related one `r`. */
  lemma RequestsDiffer()
    ensures |CoauthorsRequest| > |SharedRequest| && |RelatedRequest| > |SharedRequest|
    ensures CoauthorsRequest[|SharedRequest|] == '(' && RelatedRequest[|SharedRequest|] == 'r'
  {
    var c := "(partially) ";
    var r := "related papers.:";
    assert c[0] == '(' && r[0] == 'r';
    assert CoauthorsRequest[|SharedRequest|] == (SharedRequest + c)[|SharedRequest|] == c[0];
    assert RelatedRequest[|SharedRequest|] == (SharedRequest + r)[|SharedRequest|] == r[0];
  }

  /** Two strings that differ at an index are not both prefixes of the same string. */
  lemma DifferentPrefixes(p: string, a: string, b: string, i: nat)
    requires i < |a| && i < |b| && a[i] != b[i]
    requires StartsWith(p, a)
    ensures !StartsWith(p, b)
  {
    assert p[i] == a[i];
    if |b| <= |p| {
      assert p[..|b|][i] == p[i];
    }
  }

  /** The prompt opens with the coauthors request exactly when that search was asked for, and with
    * the related request exactly when it was not. */
  lemma PromptTemplate(title: string, keywords: string, authors: string, summary: string,
                       searchType: string)
    ensures var p := GeneratePrompt(title, keywords, authors, summary, searchType);
      (StartsWith(p, CoauthorsRequest) <==> searchType == "coauthors")
      && (StartsWith(p, RelatedRequest) <==> searchType != "coauthors")
  {
    var p := GeneratePrompt(title, keywords, authors, summary, searchType);
    ConcatAffixes(Request(searchType), PromptFields(title, keywords, authors, summary));
    RequestsDiffer();
    if searchType == "coauthors" {
      DifferentPrefixes(p, CoauthorsRequest, RelatedRequest, |SharedRequest|);
    } else {
      DifferentPrefixes(p, RelatedRequest, CoauthorsRequest, |SharedRequest|);
    }
  }

  /** After any request, the fields end with the abstract after its label. */
  lemma FieldsEndWithAbstract(request: string, title: string, keywords: string, authors: string,
                              summary: string)
    ensures EndsWith(request + PromptFields(title, keywords, authors, summary),
                     "\n\nAbstract: " + summary)
  {
    var q := request + "\n\nTitle: " + title + "\n\nKeywords: " + keywords + "\n\nAuthors: " + authors;
    var tail := "\n\nAbstract: " + summary;
    assert request + PromptFields(title, keywords, authors, summary) == q + tail;
    ConcatAffixes(q, tail);
  }

  /** Every prompt ends with the abstract, after its label. */
  lemma PromptEndsWithAbstract(title: string, keywords: string, authors: string, summary: string,
                               searchType: string)
    ensures EndsWith(GeneratePrompt(title, keywords, authors, summary, searchType),
                     "\n\nAbstract: " + summary)
  {
    FieldsEndWithAbstract(Request(searchType), title, keywords, authors, summary);
  }

  /** After the same request and the same other fields, equal texts have equal abstracts. */
  lemma FieldsDetermineSummary(request: string, title: string, keywords: string, authors: string,
                               summary1: string, summary2: string)
    requires request + PromptFields(title, keywords, authors, summary1)
          == request + PromptFields(title, keywords, authors, summary2)
    ensures summary1 == summary2
  {
    var head := request + "\n\nTitle: " + title + "\n\nKeywords: " + keywords
      + "\n\nAuthors: " + authors + "\n\nAbstract: ";
    var p := request + PromptFields(title, keywords, authors, summary1);
    assert p == head + summary1;
    assert p == head + summary2;
    assert summary1 == p[|head|..] == summary2;
  }

  /** For the same title, keywords and authors, the prompt determines the abstract and which
    * template was used. */
  lemma PromptInjective(title: string, keywords: string, authors: string,
                        summary1: string, searchType1: string,
                        summary2: string, searchType2: string)
    requires GeneratePrompt(title, keywords, authors, summary1, searchType1)
          == GeneratePrompt(title, keywords, authors, summary2, searchType2)
    ensures summary1 == summary2
    ensures searchType1 == "coauthors" <==> searchType2 == "coauthors"
  {
    PromptTemplate(title, keywords, authors, summary1, searchType1);
    PromptTemplate(title, keywords, authors, summary2, searchType2);
    assert Request(searchType1) == Request(searchType2);
    FieldsDetermineSummary(Request(searchType1), title, keywords, authors, summary1, summary2);
  }
}
