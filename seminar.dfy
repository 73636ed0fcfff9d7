/** The POST branch of `index` (app.py:40-71): parse the member names, build
    one subtopic per member with its generated text and picture, then
    generate the conclusion. The template rendering that follows is not
    modelled; `Index` returns the values handed to the template. */
module Seminar {
  import opened Outcomes
  import opened Text
  import opened Generation
  import opened Images

  /** The submitted form. `integrantes` is `None` when the field is absent. */
  datatype Form = Form(title: string, theme: string, members: int, integrantes: Option<string>)

  /** The arguments given to the result template. */
  datatype Page = Page(
    title: string,
    theme: string,
    integrantes: seq<string>,
    subtopics: seq<string>,
    contents: seq<string>,
    images: seq<string>,
    conclusion: string)

  // ---------------------------------------------------------------------------
  // Member names
  // ---------------------------------------------------------------------------

  /** The comprehension over the lines: each line stripped, blank ones dropped. */
  function Names(lines: seq<string>): seq<string> {
    if lines == [] then []
    else
      var name := Strip(lines[0]);
      (if name == [] then [] else [name]) + Names(lines[1..])
  }

  /** A name with something in it and no whitespace at either end. */
  predicate IsTrimmed(name: string) {
    name != [] && !IsSpace(name[0]) && !IsSpace(name[|name| - 1])
  }

  /** Each kept name is trimmed, and there are no more names than lines. */
  lemma {:induction false} NamesTrimmed(lines: seq<string>)
    ensures |Names(lines)| <= |lines|
    ensures forall k :: 0 <= k < |Names(lines)| ==> IsTrimmed(Names(lines)[k])
  {
    if lines != [] {
      NamesTrimmed(lines[1..]);
      var name := Strip(lines[0]);
      var head := if name == [] then [] else [name];
      var rest := Names(lines[1..]);
      assert Names(lines) == head + rest;
      assert forall k :: 0 <= k < |head| ==> IsTrimmed(head[k]);
    }
  }

  /** `[nome.strip() for nome in raw.split('\n') if nome.strip()]`. */
  function ParseMembers(raw: string): seq<string> {
    Names(Split(raw, '\n'))
  }

  /** The names of consecutive groups of lines follow each other. */
  lemma {:induction false} NamesAppend(a: seq<string>, b: seq<string>)
    ensures Names(a + b) == Names(a) + Names(b)
  {
    if a == [] {
      assert a + b == b;
    } else {
      assert (a + b)[0] == a[0];
      assert (a + b)[1..] == a[1..] + b;
      NamesAppend(a[1..], b);
      var head := if Strip(a[0]) == [] then [] else [Strip(a[0])];
      calc {
        Names(a + b);
        head + Names(a[1..] + b);
        head + (Names(a[1..]) + Names(b));
        (head + Names(a[1..])) + Names(b);
      }
    }
  }

  /** Every parsed name is non-empty and has no leading or trailing
      whitespace (so a CR left by CRLF line ends is gone), and there are
      never more names than lines. */
  lemma ParsedNamesAreTrimmed(raw: string)
    ensures |ParseMembers(raw)| <= |Split(raw, '\n')|
    ensures forall k :: 0 <= k < |ParseMembers(raw)| ==>
              IsTrimmed(ParseMembers(raw)[k]) && Strip(ParseMembers(raw)[k]) == ParseMembers(raw)[k]
  {
    var lines := Split(raw, '\n');
    var names := ParseMembers(raw);
    assert names == Names(lines);
    NamesTrimmed(lines);
    forall k | 0 <= k < |names| ensures IsTrimmed(names[k]) && Strip(names[k]) == names[k] {
      StripTrimmed(names[k]);
    }
  }

  /** Parsing text with a line break parses the two sides and concatenates
      the names in order. */
  lemma ParseMembersLines(a: string, b: string)
    ensures ParseMembers(a + "\n" + b) == ParseMembers(a) + ParseMembers(b)
  {
    SplitAround(a, '\n', b);
    NamesAppend(Split(a, '\n'), Split(b, '\n'));
  }

  /** A single line gives its stripped text, or nothing when it is blank. */
  lemma ParseMembersOneLine(line: string)
    requires '\n' !in line
    ensures ParseMembers(line) == if Strip(line) == [] then [] else [Strip(line)]
  {
    SplitNoSeparator(line, '\n');
    assert [line][1..] == [];
    assert Names([line]) == (if Strip(line) == [] then [] else [Strip(line)]) + Names([]);
  }

  /** A missing or empty field gives no names. */
  lemma ParseMembersEmpty(field: Option<string>)
    requires field == None || field == Some("")
    ensures ParseMembers(field.GetOr("")) == []
  {
    var lines := Split("", '\n');
    assert lines == [[]];
    assert Strip(lines[0]) == [];
    assert lines[1..] == [];
  }

  /** A name as it comes out of the parse: non-empty, on one line, with no
      whitespace at either end. */
  predicate IsTrimmedName(name: string) {
    IsTrimmed(name) && '\n' !in name
  }

  /** Writing trimmed names one per line and parsing the text gives the
      names back, in order. */
  lemma {:induction false} ParseJoinedNames(names: seq<string>)
    requires forall k :: 0 <= k < |names| ==> IsTrimmedName(names[k])
    ensures ParseMembers(Join(names, '\n')) == names
  {
    if names == [] {
      ParseMembersEmpty(Some(""));
    } else {
      SplitJoin(names, '\n');
      NamesOfTrimmed(names);
    }
  }

  lemma {:induction false} NamesOfTrimmed(names: seq<string>)
    requires forall k :: 0 <= k < |names| ==> IsTrimmedName(names[k])
    ensures Names(names) == names
  {
    if names != [] {
      StripTrimmed(names[0]);
      NamesOfTrimmed(names[1..]);
    }
  }

  /** A name on a line ended by CR, as CRLF input leaves it, loses the CR. */
  lemma ParseCrLine(name: string)
    requires IsTrimmedName(name)
    ensures ParseMembers(name + "\r") == [name]
  {
    var line := name + "\r";
    assert '\n' !in line;
    assert StripLeft(line) == line by {
      assert line[0] == name[0];
    }
    assert StripRight(line) == StripRight(name) by {
      assert line[..|line| - 1] == name;
    }
    StripTrimmed(name);
    assert StripRight(name) == name;
    ParseMembersOneLine(line);
  }


  /** A name is parsed exactly when it is the non-empty strip of some line. */
  lemma {:induction false} NamesMembership(lines: seq<string>, name: string)
    ensures name in Names(lines) <==> name != [] && exists l :: l in lines && Strip(l) == name
  {
    if lines != [] {
      NamesMembership(lines[1..], name);
      assert forall l :: l in lines <==> l == lines[0] || l in lines[1..];
    }
  }

  // ---------------------------------------------------------------------------
  // Subtopics
  // ---------------------------------------------------------------------------

  /** `f"{theme} - Parte {n} (Aluno {n})"`. */
  function SubtopicLabel(theme: string, n: nat): string {
    theme + " - Parte " + NatToString(n) + " (Aluno " + NatToString(n) + ")"
  }

  /** `f"Conclusão geral sobre {theme}"`. */
  function ConclusionTopic(theme: string): string {
    "Conclusão geral sobre " + theme
  }

  /** The number of decimal digits at the start of `s`. */
  function LeadingDigits(s: string): nat {
    if s != [] && IsDigit(s[0]) then 1 + LeadingDigits(s[1..]) else 0
  }

  /** A numeral followed by a space is read back up to the space. */
  lemma {:induction false} LeadingDigitsOfNumeral(d: string, r: string)
    requires forall k :: 0 <= k < |d| ==> IsDigit(d[k])
    ensures LeadingDigits(d + " " + r) == |d|
  {
    if d != [] {
      assert (d + " " + r)[1..] == d[1..] + " " + r;
      LeadingDigitsOfNumeral(d[1..], r);
    }
  }

  /** Labels of one theme are equal exactly when their ordinals are. */
  lemma SubtopicLabelInjective(theme: string, a: nat, b: nat)
    ensures SubtopicLabel(theme, a) == SubtopicLabel(theme, b) <==> a == b
  {
    if SubtopicLabel(theme, a) == SubtopicLabel(theme, b) {
      var head := theme + " - Parte ";
      var da, db := NatToString(a), NatToString(b);
      var ra := "(Aluno " + da + ")";
      var rb := "(Aluno " + db + ")";
      assert SubtopicLabel(theme, a) == head + (da + " " + ra);
      assert SubtopicLabel(theme, b) == head + (db + " " + rb);
      assert da + " " + ra == SubtopicLabel(theme, a)[|head|..];
      assert db + " " + rb == SubtopicLabel(theme, b)[|head|..];
      LeadingDigitsOfNumeral(da, ra);
      LeadingDigitsOfNumeral(db, rb);
      assert da == (da + " " + ra)[..|da|];
      assert db == (db + " " + rb)[..|db|];
      NatToStringInjective(a, b);
    }
  }

  /** The label of the third member's part of the theme "Fotossíntese". */
  lemma SubtopicLabelExample()
    ensures SubtopicLabel("Fotossíntese", 3) == "Fotossíntese - Parte 3 (Aluno 3)"
  {
  }

  /** The topics `generate_content` is called on, in call order, for a
      request that raises nothing: the `max(members, 0)` subtopic labels
      with ordinals 1, 2, ..., then the conclusion topic. */
  function ExpectedCalls(theme: string, members: int): (calls: seq<string>)
    ensures |calls| == (if members > 0 then members else 0) + 1
    ensures forall k :: 0 <= k < |calls| - 1 ==> calls[k] == SubtopicLabel(theme, k + 1)
    ensures calls[|calls| - 1] == ConclusionTopic(theme)
  {
    var n := if members > 0 then members else 0;
    seq(n, k requires 0 <= k => SubtopicLabel(theme, k + 1)) + [ConclusionTopic(theme)]
  }

  /** The subtopic labels of one request are pairwise distinct. */
  lemma SubtopicLabelsDistinct(theme: string, members: int)
    ensures forall i, j :: 0 <= i < j < |ExpectedCalls(theme, members)| - 1 ==>
              ExpectedCalls(theme, members)[i] != ExpectedCalls(theme, members)[j]
  {
    forall i, j | 0 <= i < j < |ExpectedCalls(theme, members)| - 1
      ensures ExpectedCalls(theme, members)[i] != ExpectedCalls(theme, members)[j]
    {
      SubtopicLabelInjective(theme, i + 1, j + 1);
    }
  }

  /** The conclusion topic is never a subtopic label of the same theme: it
      has one more `C` than the theme, a label has exactly as many. */
  lemma ConclusionNotALabel(theme: string, n: nat)
    ensures ConclusionTopic(theme) != SubtopicLabel(theme, n)
  {
    var d := NatToString(n);
    var opening, part, member := " - Parte ", " (Aluno ", ")";
    assert 'C' !in d;
    CountAbsent(d, 'C');
    CountAbsent(opening, 'C');
    CountAbsent(part, 'C');
    CountAbsent(member, 'C');
    var head := "Conclusão geral sobre ";
    assert head[0] == 'C';
    assert CountChar(head, 'C') >= 1;
    CountCharAppend(head, theme, 'C');
    assert SubtopicLabel(theme, n) == theme + opening + d + part + d + member;
    CountCharAppend(theme, opening, 'C');
    CountCharAppend(theme + opening, d, 'C');
    CountCharAppend(theme + opening + d, part, 'C');
    CountCharAppend(theme + opening + d + part, d, 'C');
    CountCharAppend(theme + opening + d + part + d, member, 'C');
  }

  /** All topics `generate_content` is called on in one request are
      pairwise distinct, so no two of its requests coincide. */
  lemma ExpectedCallsDistinct(theme: string, members: int)
    ensures forall i, j :: 0 <= i < j < |ExpectedCalls(theme, members)| ==>
              ExpectedCalls(theme, members)[i] != ExpectedCalls(theme, members)[j]
  {
    var calls := ExpectedCalls(theme, members);
    SubtopicLabelsDistinct(theme, members);
    forall i | 0 <= i < |calls| - 1 ensures calls[i] != calls[|calls| - 1] {
      ConclusionNotALabel(theme, i + 1);
    }
  }

  // ---------------------------------------------------------------------------
  // The request
  // ---------------------------------------------------------------------------

  /** The subtopic items built so far are aligned: item `k` has the label
      with ordinal `k + 1`, the text generated for that label and the
      picture for that label. */
  predicate Sections(client: Client, theme: string, n: nat,
                     subtopics: seq<string>, contents: seq<string>, images: seq<string>)
  {
    && |subtopics| == n && |contents| == n && |images| == n
    && forall k :: 0 <= k < n ==>
         && subtopics[k] == SubtopicLabel(theme, k + 1)
         && Ok(contents[k]) == GenerateContent(client, subtopics[k])
         && images[k] == GenerateImage(subtopics[k])
  }

  /** Appending the next label, its text and its picture keeps the items aligned. */
  lemma SectionsExtend(client: Client, theme: string, i: nat,
                       subtopics: seq<string>, contents: seq<string>, images: seq<string>, content: string)
    requires Sections(client, theme, i, subtopics, contents, images)
    requires Ok(content) == GenerateContent(client, SubtopicLabel(theme, i + 1))
    ensures var next := SubtopicLabel(theme, i + 1);
            Sections(client, theme, i + 1, subtopics + [next], contents + [content],
                     images + [GenerateImage(next)])
  {
  }

  /** The `for i in range(members)` loop of `index`, for `n = max(members, 0)`.
      `failure` is the error that ends it early, if any; the ghost log
      `calls` holds the labels passed to `generate_content`. */
  method BuildSections(client: Client, theme: string, n: nat)
    returns (failure: Option<GenError>, subtopics: seq<string>, contents: seq<string>, images: seq<string>,
             ghost calls: seq<string>)
    ensures |calls| <= n && forall k :: 0 <= k < |calls| ==> calls[k] == SubtopicLabel(theme, k + 1)
    ensures failure.None? ==> |calls| == n && Sections(client, theme, n, subtopics, contents, images)
    ensures failure.Some? ==>
              && 0 < |calls|
              && (forall k :: 0 <= k < |calls| - 1 ==> GenerateContent(client, calls[k]).Ok?)
              && GenerateContent(client, calls[|calls| - 1]) == Err(failure.value)
  {
    subtopics, contents, images := [], [], [];
    calls := [];
    for i := 0 to n
      invariant calls == subtopics
      invariant Sections(client, theme, i, subtopics, contents, images)
    {
      var subtopic := SubtopicLabel(theme, i + 1);
      calls := calls + [subtopic];
      var content := GenerateContent(client, subtopic);
      if content.Err? {
        failure := Some(content.error);
        return;
      }
      var image := GenerateImage(subtopic);
      SectionsExtend(client, theme, i, subtopics, contents, images, content.value);

      subtopics := subtopics + [subtopic];
      contents := contents + [content.value];
      images := images + [image];
    }
    failure := None;
  }

  /** The POST branch of `index`. Besides the template arguments it returns
      the ghost log `calls`, the topics passed to `generate_content` in
      order. A failed generation raises in the source and aborts the
      request: then the result is the error and no page is produced. */
  method Index(client: Client, form: Form) returns (result: Result<Page, GenError>, ghost calls: seq<string>)
    ensures var expected := ExpectedCalls(form.theme, form.members);
            && 0 < |calls| <= |expected| && calls == expected[..|calls|]
            && (forall k :: 0 <= k < |calls| - 1 ==> GenerateContent(client, calls[k]).Ok?)
            && (result.Ok? <==> forall k :: 0 <= k < |expected| ==> GenerateContent(client, expected[k]).Ok?)
            && (result.Ok? ==> calls == expected)
            && (result.Err? ==> GenerateContent(client, calls[|calls| - 1]) == Err(result.error))
    ensures result.Ok? ==>
              var page := result.value;
              && page.title == form.title && page.theme == form.theme
              && page.integrantes == ParseMembers(form.integrantes.GetOr(""))
              && Sections(client, form.theme, if form.members > 0 then form.members else 0,
                          page.subtopics, page.contents, page.images)
              && Ok(page.conclusion) == GenerateContent(client, ConclusionTopic(form.theme))
  {
    var theme := form.theme;
    var integrantes := ParseMembers(form.integrantes.GetOr(""));
    var n := if form.members > 0 then form.members else 0;
    ghost var expected := ExpectedCalls(theme, form.members);

    var failure, subtopics, contents, images;
    failure, subtopics, contents, images, calls := BuildSections(client, theme, n);
    assert calls == expected[..|calls|];
    if failure.Some? {
      assert GenerateContent(client, expected[|calls| - 1]).Err?;
      result := Err(failure.value);
      return;
    }

    assert forall k :: 0 <= k < n ==> GenerateContent(client, expected[k]).Ok? by {
      assert forall k :: 0 <= k < n ==> expected[k] == subtopics[k];
    }
    var topic := ConclusionTopic(theme);
    calls := calls + [topic];
    assert calls == expected;
    var conclusion := GenerateContent(client, topic);
    if conclusion.Err? {
      result := Err(conclusion.error);
      return;
    }
    result := Ok(Page(form.title, theme, integrantes, subtopics, contents, images, conclusion.value));
  }
}
