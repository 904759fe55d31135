/**
 * The outreach e-mail: `generateEmailContent` derives a short item name from the
 * title, builds the subject, and writes the body paragraph by paragraph, flattening
 * the rewritten description to plain text with `extractTextContent`.
 *
 * Parsing HTML is the browser's job: `extractTextContent` is given the elements
 * that `querySelectorAll('h1, h2, h3, h4, h5, h6, p, li')` returns, in document
 * order, each as its tag name and its text content.
 */
module EmailHelpers {
  import opened Text
  import opened Types

  /** One heading, paragraph or list item of the parsed description. */
  datatype Block = Block(tagName: string, textContent: string)

  const EmDash: char := '\U{2014}'

  // ---------------------------------------------------------------------------
  // Whitespace consolidation

  predicate IsLineFeed(c: char) {
    c == '\n'
  }

  /** No two line feeds in a row. */
  predicate NoDoubleLineFeed(s: string) {
    forall i :: 0 <= i < |s| - 1 ==> !(s[i] == '\n' && s[i + 1] == '\n')
  }

  /** `s.replace(/\n\n+/g, '\n\n')`: every run of two or more line feeds becomes exactly two. */
  function CollapseNewlines(s: string): (r: string)
    decreases |s|
    ensures s != [] && s[0] != '\n' ==> r != [] && r[0] == s[0]
    ensures StartsWord(r) == StartsWord(s)
    ensures NoDoubleLineFeed(s) ==> r == s
    ensures forall i :: 0 <= i < |r| - 2 ==> !(r[i] == '\n' && r[i + 1] == '\n' && r[i + 2] == '\n')
  {
    if |s| >= 2 && s[0] == '\n' && s[1] == '\n' then
      var n := RunLength(s, 0, IsLineFeed);
      "\n\n" + CollapseNewlines(s[n..])
    else if s == [] then []
    else [s[0]] + CollapseNewlines(s[1..])
  }

  /** `s.replace(/\s\s+/g, ' ')`: every run of two or more white-space characters becomes one space. */
  function CollapseSpaces(s: string): (r: string)
    decreases |s|
    ensures s != [] && !IsSpace(s[0]) ==> r != [] && r[0] == s[0]
    ensures StartsWord(r) == StartsWord(s)
    ensures NoDoubleSpace(r)
    ensures NoDoubleSpace(s) ==> r == s
  {
    if |s| >= 2 && IsSpace(s[0]) && IsSpace(s[1]) then
      var n := RunLength(s, 0, IsSpace);
      " " + CollapseSpaces(s[n..])
    else if s == [] then []
    else [s[0]] + CollapseSpaces(s[1..])
  }

  /** A string that does not end in a line feed is consolidated apart from what follows it. */
  lemma {:induction false} CollapseNewlinesAppend(a: string, t: string)
    requires a == [] || a[|a| - 1] != '\n'
    ensures CollapseNewlines(a + t) == CollapseNewlines(a) + CollapseNewlines(t)
    decreases |a|
  {
    if a == [] {
      assert a + t == t;
    } else if |a| >= 2 && a[0] == '\n' && a[1] == '\n' {
      var n := RunLength(a, 0, IsLineFeed);
      RunLengthWithin(a, t, 0, IsLineFeed);
      assert 0 < n < |a|;
      CollapseNewlinesAppend(a[n..], t);
      DropAppend(a, t, n);
      assert CollapseNewlines(a + t) == "\n\n" + CollapseNewlines(a[n..] + t);
      assert CollapseNewlines(a) == "\n\n" + CollapseNewlines(a[n..]);
      AppendAssoc("\n\n", CollapseNewlines(a[n..]), CollapseNewlines(t));
    } else {
      assert (a + t)[0] == a[0] && (|a| >= 2 ==> (a + t)[1] == a[1]);
      CollapseNewlinesAppend(a[1..], t);
      DropAppend(a, t, 1);
      assert CollapseNewlines(a + t) == [a[0]] + CollapseNewlines(a[1..] + t);
      assert CollapseNewlines(a) == [a[0]] + CollapseNewlines(a[1..]);
      AppendAssoc([a[0]], CollapseNewlines(a[1..]), CollapseNewlines(t));
    }
  }

  /** A run of two or more line feeds, up to the next other character, becomes exactly two. */
  lemma CollapseNewlinesRun(w: string, b: string)
    requires |w| >= 2 && forall j :: 0 <= j < |w| ==> w[j] == '\n'
    requires b == [] || b[0] != '\n'
    ensures CollapseNewlines(w + b) == "\n\n" + CollapseNewlines(b)
  {
    var s := w + b;
    var n := RunLength(s, 0, IsLineFeed);
    assert forall j :: 0 <= j < |w| ==> IsLineFeed(s[j]);
    assert |w| == |s| || !IsLineFeed(s[|w|]);
    assert n == |w|;
    assert s[|w|..] == b;
  }

  /**
   * `/\n\n+/g` in context: a run of two or more line feeds between a part that does
   * not end and a part that does not start with a line feed becomes `"\n\n"`.
   */
  lemma CollapseNewlinesSplit(a: string, w: string, b: string)
    requires a == [] || a[|a| - 1] != '\n'
    requires |w| >= 2 && forall j :: 0 <= j < |w| ==> w[j] == '\n'
    requires b == [] || b[0] != '\n'
    ensures CollapseNewlines(a + w + b) == CollapseNewlines(a) + "\n\n" + CollapseNewlines(b)
  {
    AppendAssoc(a, w, b);
    CollapseNewlinesAppend(a, w + b);
    CollapseNewlinesRun(w, b);
    AppendAssoc(CollapseNewlines(a), "\n\n", CollapseNewlines(b));
  }

  /** A string that does not end in white space is consolidated apart from what follows it. */
  lemma {:induction false} CollapseSpacesAppend(a: string, t: string)
    requires a == [] || !IsSpace(a[|a| - 1])
    ensures CollapseSpaces(a + t) == CollapseSpaces(a) + CollapseSpaces(t)
    decreases |a|
  {
    if a == [] {
      assert a + t == t;
    } else if |a| >= 2 && IsSpace(a[0]) && IsSpace(a[1]) {
      var n := RunLength(a, 0, IsSpace);
      RunLengthWithin(a, t, 0, IsSpace);
      assert 0 < n < |a|;
      CollapseSpacesAppend(a[n..], t);
      DropAppend(a, t, n);
      assert CollapseSpaces(a + t) == " " + CollapseSpaces(a[n..] + t);
      assert CollapseSpaces(a) == " " + CollapseSpaces(a[n..]);
      AppendAssoc(" ", CollapseSpaces(a[n..]), CollapseSpaces(t));
    } else {
      assert (a + t)[0] == a[0] && (|a| >= 2 ==> (a + t)[1] == a[1]);
      CollapseSpacesAppend(a[1..], t);
      DropAppend(a, t, 1);
      assert CollapseSpaces(a + t) == [a[0]] + CollapseSpaces(a[1..] + t);
      assert CollapseSpaces(a) == [a[0]] + CollapseSpaces(a[1..]);
      AppendAssoc([a[0]], CollapseSpaces(a[1..]), CollapseSpaces(t));
    }
  }

  /** A run of two or more white-space characters, up to the next other character, becomes one space. */
  lemma CollapseSpacesRun(w: string, b: string)
    requires |w| >= 2 && forall j :: 0 <= j < |w| ==> IsSpace(w[j])
    requires b == [] || !IsSpace(b[0])
    ensures CollapseSpaces(w + b) == " " + CollapseSpaces(b)
  {
    var s := w + b;
    var n := RunLength(s, 0, IsSpace);
    assert forall j :: 0 <= j < |w| ==> IsSpace(s[j]);
    assert |w| == |s| || !IsSpace(s[|w|]);
    assert n == |w|;
    assert s[|w|..] == b;
  }

  /**
   * `/\s\s+/g` in context: a run of two or more white-space characters between a
   * part that does not end and a part that does not start with white space becomes
   * one space.
   */
  lemma CollapseSpacesSplit(a: string, w: string, b: string)
    requires a == [] || !IsSpace(a[|a| - 1])
    requires |w| >= 2 && forall j :: 0 <= j < |w| ==> IsSpace(w[j])
    requires b == [] || !IsSpace(b[0])
    ensures CollapseSpaces(a + w + b) == CollapseSpaces(a) + " " + CollapseSpaces(b)
  {
    AppendAssoc(a, w, b);
    CollapseSpacesAppend(a, w + b);
    CollapseSpacesRun(w, b);
    AppendAssoc(CollapseSpaces(a), " ", CollapseSpaces(b));
  }

  /** Consolidating line feeds keeps every visible character, in order. */
  lemma {:induction false} CollapseNewlinesKeepsText(s: string)
    ensures Filter(CollapseNewlines(s), IsNonSpace) == Filter(s, IsNonSpace)
    decreases |s|
  {
    if |s| >= 2 && s[0] == '\n' && s[1] == '\n' {
      var n := RunLength(s, 0, IsLineFeed);
      CollapseNewlinesKeepsText(s[n..]);
      DropBlank(s, n);
      FilterConcat("\n\n", CollapseNewlines(s[n..]), IsNonSpace);
    } else if s != [] {
      CollapseNewlinesKeepsText(s[1..]);
      FilterConcat([s[0]], CollapseNewlines(s[1..]), IsNonSpace);
      FilterConcat([s[0]], s[1..], IsNonSpace);
      assert s == [s[0]] + s[1..];
    }
  }

  /** Consolidating white space keeps every visible character, in order. */
  lemma {:induction false} CollapseSpacesKeepsText(s: string)
    ensures Filter(CollapseSpaces(s), IsNonSpace) == Filter(s, IsNonSpace)
    decreases |s|
  {
    if |s| >= 2 && IsSpace(s[0]) && IsSpace(s[1]) {
      var n := RunLength(s, 0, IsSpace);
      CollapseSpacesKeepsText(s[n..]);
      DropBlank(s, n);
      FilterConcat(" ", CollapseSpaces(s[n..]), IsNonSpace);
    } else if s != [] {
      CollapseSpacesKeepsText(s[1..]);
      FilterConcat([s[0]], CollapseSpaces(s[1..]), IsNonSpace);
      FilterConcat([s[0]], s[1..], IsNonSpace);
      assert s == [s[0]] + s[1..];
    }
  }

  /** Consolidating line feeds keeps every word: only the white space between words changes. */
  lemma {:induction false} CollapseNewlinesKeepsWords(s: string)
    ensures Words(CollapseNewlines(s)) == Words(s)
    decreases |s|
  {
    if |s| >= 2 && s[0] == '\n' && s[1] == '\n' {
      var n := RunLength(s, 0, IsLineFeed);
      CollapseNewlinesKeepsWords(s[n..]);
      WordsDropLeadingSpace(s, n);
      WordsDropLeadingSpace("\n\n" + CollapseNewlines(s[n..]), 2);
      assert ("\n\n" + CollapseNewlines(s[n..]))[2..] == CollapseNewlines(s[n..]);
    } else if s != [] {
      CollapseNewlinesKeepsWords(s[1..]);
      WordsConsCongruent(s[0], CollapseNewlines(s[1..]), s[1..]);
      assert s == [s[0]] + s[1..];
    }
  }

  /** Consolidating white space keeps every word: only the white space between words changes. */
  lemma {:induction false} CollapseSpacesKeepsWords(s: string)
    ensures Words(CollapseSpaces(s)) == Words(s)
    decreases |s|
  {
    if |s| >= 2 && IsSpace(s[0]) && IsSpace(s[1]) {
      var n := RunLength(s, 0, IsSpace);
      CollapseSpacesKeepsWords(s[n..]);
      WordsDropLeadingSpace(s, n);
      WordsDropLeadingSpace(" " + CollapseSpaces(s[n..]), 1);
      assert (" " + CollapseSpaces(s[n..]))[1..] == CollapseSpaces(s[n..]);
    } else if s != [] {
      CollapseSpacesKeepsWords(s[1..]);
      WordsConsCongruent(s[0], CollapseSpaces(s[1..]), s[1..]);
      assert s == [s[0]] + s[1..];
    }
  }

  /** Dropping a leading run of white space leaves the visible characters unchanged. */
  lemma DropBlank(s: string, n: nat)
    requires n <= |s|
    requires forall j :: 0 <= j < n ==> IsSpace(s[j])
    ensures Filter(s[n..], IsNonSpace) == Filter(s, IsNonSpace)
  {
    assert s == s[..n] + s[n..];
    FilterAllRejected(s[..n], IsNonSpace);
    FilterConcat(s[..n], s[n..], IsNonSpace);
  }

  // ---------------------------------------------------------------------------
  // extractTextContent

  /** What one element adds to `paragraphs`: nothing when its trimmed text is empty. */
  function PieceOf(b: Block): (r: seq<string>)
    ensures r == [] <==> Trim(b.textContent) == ""
    ensures |r| <= 1
    ensures r != [] ==> r[0] != "" && EmDash !in r[0]
    ensures r != [] && b.tagName == "LI" ==> |r[0]| >= 2 && r[0][..2] == "- "
    ensures r != [] ==> r[0] == (if b.tagName == "LI" then "- " else "") + ReplaceChar(Trim(b.textContent), EmDash, '-')
  {
    var text := Trim(b.textContent);
    if text == "" then []
    else
      var clean := ReplaceChar(text, EmDash, '-');
      if b.tagName == "LI" then ["- " + clean] else [clean]
  }

  /** The `paragraphs` array after the `forEach` over `blocks`. */
  function Paragraphs(blocks: seq<Block>): (r: seq<string>)
    ensures |r| <= |blocks|
  {
    if blocks == [] then []
    else Paragraphs(blocks[..|blocks| - 1]) + PieceOf(blocks[|blocks| - 1])
  }

  /** Every paragraph is non-empty and free of em-dashes. */
  lemma {:induction false} ParagraphsClean(blocks: seq<Block>)
    ensures forall p :: p in Paragraphs(blocks) ==> p != "" && EmDash !in p
  {
    if blocks != [] {
      ParagraphsClean(blocks[..|blocks| - 1]);
    }
  }

  /** The plain text of a description: the result of `extractTextContent`. */
  function TextContentOf(html: string, blocks: seq<Block>): string {
    if html == "" then ""
    else CollapseSpaces(CollapseNewlines(Trim(Join(Paragraphs(blocks), "\n\n"))))
  }

  /** `extractTextContent`. */
  method ExtractTextContent(html: string, blocks: seq<Block>) returns (text: string)
    ensures text == TextContentOf(html, blocks)
    ensures html == "" ==> text == ""
  {
    if html == "" {
      return "";
    }
    var paragraphs: seq<string> := [];
    for i := 0 to |blocks|
      invariant paragraphs == Paragraphs(blocks[..i])
    {
      assert blocks[..i + 1][..i] == blocks[..i];
      var piece := Trim(blocks[i].textContent);
      if piece != "" {
        piece := ReplaceChar(piece, EmDash, '-');
        if blocks[i].tagName == "LI" {
          paragraphs := paragraphs + ["- " + piece];
        } else {
          paragraphs := paragraphs + [piece];
        }
      }
    }
    assert blocks[..|blocks|] == blocks;
    var content := Trim(Join(paragraphs, "\n\n"));
    content := CollapseNewlines(content);
    content := CollapseSpaces(content);
    text := content;
  }

  /**
   * The plain text has no two white-space characters in a row, so even the blank
   * lines between paragraphs end up as single spaces.
   */
  lemma TextContentSingleSpaced(html: string, blocks: seq<Block>)
    ensures NoDoubleSpace(TextContentOf(html, blocks))
  {
  }

  /** The plain text holds exactly the visible characters of the paragraphs, in order. */
  lemma TextContentKeepsText(html: string, blocks: seq<Block>)
    requires html != ""
    ensures Filter(TextContentOf(html, blocks), IsNonSpace) == Filter(Concat(Paragraphs(blocks)), IsNonSpace)
  {
    var joined := Join(Paragraphs(blocks), "\n\n");
    CollapseSpacesKeepsText(CollapseNewlines(Trim(joined)));
    CollapseNewlinesKeepsText(Trim(joined));
    TrimKeepsNonSpace(joined);
    assert Filter("\n\n", IsNonSpace) == [];
    JoinFilter(Paragraphs(blocks), "\n\n", IsNonSpace);
  }

  /**
   * The plain text holds exactly the words of the paragraphs, in order: the blank
   * line between two paragraphs separates their words and nothing else moves.
   */
  lemma TextContentWords(html: string, blocks: seq<Block>)
    requires html != ""
    ensures Words(TextContentOf(html, blocks)) == WordsOfAll(Paragraphs(blocks))
  {
    FlattenJoinKeepsWords(Paragraphs(blocks));
  }

  /** Joining paragraphs with blank lines and flattening keeps each paragraph's words, in order. */
  lemma FlattenJoinKeepsWords(ps: seq<string>)
    ensures Words(CollapseSpaces(CollapseNewlines(Trim(Join(ps, "\n\n"))))) == WordsOfAll(ps)
  {
    FlattenKeepsWords(Join(ps, "\n\n"));
    BlankLineJoinWords(ps);
  }

  /** The blank line between paragraphs separates their words. */
  lemma BlankLineJoinWords(ps: seq<string>)
    ensures Words(Join(ps, "\n\n")) == WordsOfAll(ps)
  {
    var sep := "\n\n";
    assert IsSpace(sep[0]) && IsSpace(sep[1]);
    WordsJoin(ps, sep);
  }

  /** Trimming and both consolidations together keep every word. */
  lemma FlattenKeepsWords(s: string)
    ensures Words(CollapseSpaces(CollapseNewlines(Trim(s)))) == Words(s)
  {
    CollapseSpacesKeepsWords(CollapseNewlines(Trim(s)));
    CollapseNewlinesKeepsWords(Trim(s));
    WordsTrim(s);
  }

  /** A paragraph that neither starts nor ends with white space and has no two white-space characters in a row. */
  predicate Tight(p: string) {
    p != [] && !IsSpace(p[0]) && !IsSpace(p[|p| - 1]) && NoDoubleSpace(p)
  }

  /** Every paragraph starts and ends with a character other than white space. */
  lemma {:induction false} ParagraphsEdges(blocks: seq<Block>)
    ensures forall p :: p in Paragraphs(blocks) ==> p != "" && !IsSpace(p[0]) && !IsSpace(p[|p| - 1])
  {
    if blocks != [] {
      var init, b := blocks[..|blocks| - 1], blocks[|blocks| - 1];
      ParagraphsEdges(init);
      PieceEdges(b);
      assert forall p :: p in Paragraphs(blocks) ==> p in Paragraphs(init) || p in PieceOf(b);
    }
  }

  /** The paragraph of one element starts and ends with a character other than white space. */
  lemma PieceEdges(b: Block)
    ensures forall p :: p in PieceOf(b) ==> p != "" && !IsSpace(p[0]) && !IsSpace(p[|p| - 1])
  {
    var t := Trim(b.textContent);
    TrimShape(b.textContent);
    if t != "" {
      var c := ReplaceChar(t, EmDash, '-');
      assert !IsSpace(c[0]) && !IsSpace(c[|c| - 1]);
    }
  }

  /** Joining tight paragraphs gives a string that starts and ends with a character other than white space. */
  lemma {:induction false} JoinTightEdges(ps: seq<string>, sep: string)
    requires ps != [] && forall p :: p in ps ==> Tight(p)
    ensures var j := Join(ps, sep); j != [] && !IsSpace(j[0]) && !IsSpace(j[|j| - 1])
  {
    assert ps[0] in ps;
    if |ps| > 1 {
      JoinTightEdges(ps[1..], sep);
      assert Join(ps, sep) == ps[0] + sep + Join(ps[1..], sep);
    }
  }

  /**
   * Between tight paragraphs, each blank line survives the line-feed consolidation
   * and then becomes one space.
   */
  lemma {:induction false} CollapseTightJoin(ps: seq<string>)
    requires forall p :: p in ps ==> Tight(p)
    ensures CollapseNewlines(Join(ps, "\n\n")) == Join(ps, "\n\n")
    ensures CollapseSpaces(Join(ps, "\n\n")) == Join(ps, " ")
  {
    if ps != [] {
      var p := ps[0];
      assert p in ps;
      assert NoDoubleLineFeed(p) by {
        forall i | 0 <= i < |p| - 1
          ensures !(p[i] == '\n' && p[i + 1] == '\n')
        {
          assert !(IsSpace(p[i]) && IsSpace(p[i + 1]));
        }
      }
      if |ps| > 1 {
        var rest := ps[1..];
        CollapseTightJoin(rest);
        JoinTightEdges(rest, "\n\n");
        CollapseNewlinesSplit(p, "\n\n", Join(rest, "\n\n"));
        CollapseSpacesSplit(p, "\n\n", Join(rest, "\n\n"));
      }
    }
  }

  /**
   * When no paragraph has two white-space characters in a row, the plain text is
   * the paragraphs joined by single spaces: each `"\n\n"` of the join becomes `" "`.
   */
  lemma TextContentSpacesParagraphs(html: string, blocks: seq<Block>)
    requires html != ""
    requires forall p :: p in Paragraphs(blocks) ==> NoDoubleSpace(p)
    ensures TextContentOf(html, blocks) == Join(Paragraphs(blocks), " ")
  {
    var ps := Paragraphs(blocks);
    ParagraphsEdges(blocks);
    var joined := Join(ps, "\n\n");
    CollapseTightJoin(ps);
    if ps != [] {
      JoinTightEdges(ps, "\n\n");
      assert TrimStart(joined) == joined;
      assert TrimEnd(joined) == joined;
    }
  }

  /** No em-dash survives into the plain text. */
  lemma TextContentWithoutEmDash(html: string, blocks: seq<Block>)
    ensures EmDash !in TextContentOf(html, blocks)
  {
    if html != "" {
      var ps := Paragraphs(blocks);
      TextContentKeepsText(html, blocks);
      ParagraphsClean(blocks);
      ConcatAvoids(ps, EmDash);
      FilterMember(TextContentOf(html, blocks), IsNonSpace, EmDash);
      FilterMember(Concat(ps), IsNonSpace, EmDash);
    }
  }

  lemma {:induction false} ConcatAvoids(xs: seq<string>, c: char)
    requires forall x :: x in xs ==> c !in x
    ensures c !in Concat(xs)
  {
    if xs != [] {
      assert xs[0] in xs;
      ConcatAvoids(xs[1..], c);
    }
  }

  // ---------------------------------------------------------------------------
  // The item name

  /** One of the separators of `title.split(/ - | \/ | \| /)` starts at position `i`. */
  predicate SeparatorAt(s: string, i: nat) {
    HasAt(s, i, " - ") || HasAt(s, i, " / ") || HasAt(s, i, " | ")
  }

  function SeparatorMatch(s: string, i: nat): Option<nat> {
    if SeparatorAt(s, i) then Some(3) else None
  }

  /** `title.split(/ - | \/ | \| /)[0]`: the text before the leftmost separator. */
  function FirstPiece(title: string): (r: string)
    ensures |r| <= |title| && r == title[..|r|]
  {
    match FindFirst(title, 0, SeparatorMatch)
    case None => title
    case Some((i, _)) => title[..i]
  }

  /** The first piece ends at the leftmost separator, or is the whole title when there is none. */
  lemma FirstPieceEndsAtSeparator(title: string)
    ensures forall j: nat :: j < |FirstPiece(title)| ==> !SeparatorAt(title, j)
    ensures |FirstPiece(title)| == |title| || SeparatorAt(title, |FirstPiece(title)|)
  {
    var m := FindFirst(title, 0, SeparatorMatch);
    var end := if m.None? then |title| else m.value.0;
    forall j: nat | j < end
      ensures !SeparatorAt(title, j)
    {
      assert SeparatorMatch(title, j).None?;
    }
    if m.Some? {
      assert SeparatorMatch(title, end).Some?;
    }
  }

  /** `itemNameForEmail`: the trimmed first piece, or the whole title when that piece is blank. */
  function ItemName(title: string): string {
    Or(Trim(FirstPiece(title)), title)
  }

  /**
   * The item name is either the whole title (when the text before the first separator
   * is blank) or a non-blank part of the title that holds no separator.
   */
  lemma ItemNameShape(title: string)
    ensures ItemName(title) == title || (Trim(ItemName(title)) != "" && forall j: nat :: !SeparatorAt(ItemName(title), j))
  {
    var p := FirstPiece(title);
    var name := Trim(p);
    if name != "" {
      FirstPieceEndsAtSeparator(title);
      TrimShape(p);
      TrimIsTrimmed(p);
      var k := |p| - |TrimStart(p)|;
      assert name == title[k..k + |name|];
      forall j: nat | SeparatorAt(name, j)
        ensures false
      {
        SeparatorInSlice(title, k, name, j);
      }
    }
  }

  /** A separator inside a slice is a separator of the whole string. */
  lemma SeparatorInSlice(s: string, k: nat, part: string, j: nat)
    requires k + |part| <= |s| && part == s[k..k + |part|]
    requires SeparatorAt(part, j)
    ensures SeparatorAt(s, k + j) && k + j + 3 <= k + |part|
  {
    assert |" - "| == |" / "| == |" | "| == 3;
    assert j + 3 <= |part|;
    assert forall i :: j <= i < j + 3 ==> part[i] == s[k + i];
    assert s[k + j..k + j + 3] == part[j..j + 3];
  }

  /** A title without any separator names itself, trimmed. */
  lemma ItemNameWithoutSeparator(title: string)
    requires forall j: nat :: j <= |title| ==> !SeparatorAt(title, j)
    ensures ItemName(title) == Or(Trim(title), title)
  {
    FirstPieceEndsAtSeparator(title);
  }

  /** `Trim` leaves nothing more to trim. */
  lemma TrimIsTrimmed(s: string)
    ensures Trim(s) != "" ==> Trim(Trim(s)) == Trim(s)
  {
    TrimShape(s);
    var t := Trim(s);
    if t != "" {
      assert TrimStart(t) == t;
      assert TrimEnd(t) == t;
    }
  }

  // ---------------------------------------------------------------------------
  // The e-mail

  /** `itemNumberString`: the item number in brackets, unless it is "N/A". */
  function ItemNumberClause(itemNumber: string): (r: string)
    ensures r == "" <==> itemNumber == "N/A"
  {
    if itemNumber != "N/A" then " (Item Number: " + itemNumber + ")" else ""
  }

  /**
   * The fixed sentences of the e-mail. The layout below is stated over any wording,
   * so that its proofs never look inside the long literal texts; `SourceWording`
   * holds the texts the composer writes.
   */
  datatype Wording = Wording(
    subjectLead: string,
    greeting: string,
    introLead: string,
    introTail: string,
    suggestLine: string,
    titleHeading: string,
    titleLead: string,
    titleMiddle: string,
    titleTail: string,
    descriptionHeading: string,
    descriptionNote: string,
    specificsHeading: string,
    additionsLead: string,
    noAdditions: string,
    photosHeading: string,
    photosAdvice: string,
    closing: string,
    signOff: string)

  /**
   * The texts `generateEmailContent` writes, recorded for reference only: every
   * lemma about the body is stated for an arbitrary `Wording`, so it holds for this
   * one without any proof looking inside these long literals.
   */
  function SourceWording(): Wording {
    Wording(
      "Boosting your listing: Ideas for ",
      "Hi [Seller Name],\n\n",
      "I hope you are well. As discussed previously, reviewing your listings for improvements will greatly enhance your organic visibility but also boost the performance of any advertising or marketing tools. For example I have reviewed your listing for ",
      " and a few tweaks could really help it capture more traffic and secure sales. You can apply the recommendations here to your other listings too for maximum effect on your account and we can discuss in our next meeting as well.\n\n",
      "Here is what I suggest:\n\n",
      "1. Title:\n\n",
      "Your current title, \"",
      "\" is good but a more effective approach would be: \"",
      "\". It prioritizes distinguishing product attributes and core features earlier in the title, which is crucial for capturing specific buyer searches. This approach maximizes the use of available character limits and aligns with eBay's search algorithms to significantly boost your listing's visibility and click-through rates by directly targeting what buyers are actively seeking.\n\n",
      "2. Description Update:\n\n",
      "This description focuses on benefits and advantages of the product, not just details. And the bullet points will really make it easy for buyers to quickly know exactly what those benefits are.\n\n",
      "3. Item Specifics:\n\n",
      "I recommend adding these item specifics to improve searchability:\n\n",
      "No specific additions to item specifics are recommended at this time, indicating a strong foundation in this area.\n\n",
      "4. Photos:\n\n",
      "As always, you will always capture better visibility when your first photo is the item on a clear white background with no logo or text. Then you have up to 23 other photos to sell the benefits and features, photos of it being used and so on with all the logos and text you want!\n\n",
      "Making these updates usually takes just a few minutes, but they can make a significant difference in visibility. I'm here if you have any questions!\n\n",
      "Kind regards,\nTeammate Name")
  }

  /** One line of the additions list. */
  function Bullet(spec: string): string {
    "- " + spec + "\n"
  }

  /** The additions list, one line per addition, in order. */
  function Bullets(specs: seq<string>): string {
    if specs == [] then "" else Bullets(specs[..|specs| - 1]) + Bullet(specs[|specs| - 1])
  }

  /** The opening paragraph, naming the item and, when known, its item number. */
  function Intro(w: Wording, itemName: string, itemNumberString: string): string {
    w.introLead + itemName + itemNumberString + w.introTail
  }

  /** The title paragraph, quoting the current and the recommended title. */
  function TitleParagraph(w: Wording, title: string, recommended: string): string {
    w.titleLead + title + w.titleMiddle + recommended + w.titleTail
  }

  /** The body up to and including the "3. Item Specifics:" heading. */
  function BodyOpening(w: Wording, data: ParsedListingData, report: AuditReport, rewrite: seq<Block>): string {
    w.greeting
    + Intro(w, ItemName(data.title), ItemNumberClause(data.itemNumber))
    + w.suggestLine
    + w.titleHeading
    + TitleParagraph(w, data.title, report.recommendedTitle)
    + w.descriptionHeading
    + (TextContentOf(report.descriptionRewrite, rewrite) + "\n\n")
    + w.descriptionNote
    + w.specificsHeading
  }

  /** The item-specifics section: the additions as a list, or a fixed sentence when there are none. */
  function AdditionsSection(w: Wording, additions: seq<string>): string {
    if |additions| > 0 then w.additionsLead + Bullets(additions) + "\n" else w.noAdditions
  }

  /** The body after the item-specifics section. */
  function BodyClosing(w: Wording): string {
    w.photosHeading + w.photosAdvice + w.closing + w.signOff
  }

  /** The subject line: the subject lead and the item name. */
  function Subject(w: Wording, data: ParsedListingData): string {
    w.subjectLead + ItemName(data.title)
  }

  /** The e-mail body; `rewrite` holds the elements of the rewritten description. */
  function EmailBody(w: Wording, data: ParsedListingData, report: AuditReport, rewrite: seq<Block>): string {
    BodyOpening(w, data, report, rewrite) + AdditionsSection(w, report.additions) + BodyClosing(w)
  }

  /** The `forEach` over the additions: one line appended to `body` per addition. */
  method AppendBullets(body: string, specs: seq<string>) returns (r: string)
    ensures r == body + Bullets(specs)
  {
    r := body;
    for i := 0 to |specs|
      invariant r == body + Bullets(specs[..i])
    {
      assert specs[..i + 1][..i] == specs[..i];
      AppendAssoc(body, Bullets(specs[..i]), Bullet(specs[i]));
      r := r + Bullet(specs[i]);
    }
    assert specs[..|specs|] == specs;
  }

  /**
   * `generateEmailContent`, writing the sentences of `w` (the composer's own are
   * `SourceWording()`): the body is extended piece by piece, one line per addition.
   */
  method GenerateEmailContent(w: Wording, data: ParsedListingData, report: AuditReport, rewrite: seq<Block>)
    returns (subject: string, body: string)
    ensures subject == Subject(w, data)
    ensures body == EmailBody(w, data, report, rewrite)
  {
    var fullTitle := data.title;
    var itemName := ItemName(fullTitle);
    var itemNumberString := ItemNumberClause(data.itemNumber);
    subject := w.subjectLead + itemName;

    body := w.greeting;
    body := body + Intro(w, itemName, itemNumberString);
    body := body + w.suggestLine;
    body := body + w.titleHeading;
    body := body + TitleParagraph(w, data.title, report.recommendedTitle);
    body := body + w.descriptionHeading;
    var rewrittenText := ExtractTextContent(report.descriptionRewrite, rewrite);
    body := body + (rewrittenText + "\n\n");
    body := body + w.descriptionNote;
    body := body + w.specificsHeading;
    ghost var opening := body;
    if |report.additions| > 0 {
      body := body + w.additionsLead;
      body := AppendBullets(body, report.additions);
      body := body + "\n";
      AppendAssoc(opening, w.additionsLead, Bullets(report.additions));
      AppendAssoc(opening, w.additionsLead + Bullets(report.additions), "\n");
    } else {
      body := body + w.noAdditions;
    }
    ghost var section := body;
    body := body + w.photosHeading;
    body := body + w.photosAdvice;
    body := body + w.closing;
    body := body + w.signOff;
    AppendAssoc(section, w.photosHeading, w.photosAdvice);
    AppendAssoc(section, w.photosHeading + w.photosAdvice, w.closing);
    AppendAssoc(section, w.photosHeading + w.photosAdvice + w.closing, w.signOff);
  }

  /** The body opens with the greeting. */
  lemma EmailStartsWithGreeting(w: Wording, data: ParsedListingData, report: AuditReport, rewrite: seq<Block>)
    ensures var body := EmailBody(w, data, report, rewrite);
      |w.greeting| <= |body| && body[..|w.greeting|] == w.greeting
  {
    var g := w.greeting;
    var o1 := g + Intro(w, ItemName(data.title), ItemNumberClause(data.itemNumber));
    var o2 := o1 + w.suggestLine;
    var o3 := o2 + w.titleHeading;
    var o4 := o3 + TitleParagraph(w, data.title, report.recommendedTitle);
    var o5 := o4 + w.descriptionHeading;
    var o6 := o5 + (TextContentOf(report.descriptionRewrite, rewrite) + "\n\n");
    var o7 := o6 + w.descriptionNote;
    var o8 := o7 + w.specificsHeading;
    assert o8 == BodyOpening(w, data, report, rewrite);
    var o9 := o8 + AdditionsSection(w, report.additions);
    assert o1[..|g|] == g;
    PrefixKept(g, o1, w.suggestLine);
    PrefixKept(g, o2, w.titleHeading);
    PrefixKept(g, o3, TitleParagraph(w, data.title, report.recommendedTitle));
    PrefixKept(g, o4, w.descriptionHeading);
    PrefixKept(g, o5, TextContentOf(report.descriptionRewrite, rewrite) + "\n\n");
    PrefixKept(g, o6, w.descriptionNote);
    PrefixKept(g, o7, w.specificsHeading);
    PrefixKept(g, o8, AdditionsSection(w, report.additions));
    PrefixKept(g, o9, BodyClosing(w));
  }

  /** The body closes with the sign-off. */
  lemma EmailEndsWithSignOff(w: Wording, data: ParsedListingData, report: AuditReport, rewrite: seq<Block>)
    ensures var body := EmailBody(w, data, report, rewrite);
      |w.signOff| <= |body| && body[|body| - |w.signOff|..] == w.signOff
  {
    var front := BodyOpening(w, data, report, rewrite) + AdditionsSection(w, report.additions);
    AppendAssoc(front, w.photosHeading + w.photosAdvice + w.closing, w.signOff);
    var all := front + (w.photosHeading + w.photosAdvice + w.closing) + w.signOff;
    assert all[|all| - |w.signOff|..] == w.signOff;
  }

  lemma PrefixKept(p: string, x: string, y: string)
    requires |p| <= |x| && x[..|p|] == p
    ensures |p| <= |x + y| && (x + y)[..|p|] == p
  {
    assert (x + y)[..|p|] == x[..|p|];
  }

  /**
   * Right after the greeting comes the opening paragraph, which names the item and,
   * exactly when the item number is not "N/A", carries the item-number clause.
   */
  lemma EmailIntroduces(w: Wording, data: ParsedListingData, report: AuditReport, rewrite: seq<Block>)
    ensures var body := EmailBody(w, data, report, rewrite);
      var intro := Intro(w, ItemName(data.title), ItemNumberClause(data.itemNumber));
      && |w.greeting| + |intro| <= |body|
      && body[|w.greeting|..|w.greeting| + |intro|] == intro
  {
    var body := EmailBody(w, data, report, rewrite);
    var intro := Intro(w, ItemName(data.title), ItemNumberClause(data.itemNumber));
    var opening := BodyOpening(w, data, report, rewrite);
    var head := w.greeting + intro;
    assert opening == head + opening[|head|..];
    assert body == head + (opening[|head|..] + AdditionsSection(w, report.additions) + BodyClosing(w));
  }

  /** The item-specifics section follows the opening: the list of additions, or the fixed sentence when there are none. */
  lemma EmailListsAdditions(w: Wording, data: ParsedListingData, report: AuditReport, rewrite: seq<Block>)
    ensures var body := EmailBody(w, data, report, rewrite);
      var opening := BodyOpening(w, data, report, rewrite);
      var section := if report.additions == [] then w.noAdditions else w.additionsLead + Bullets(report.additions) + "\n";
      && |opening| + |section| <= |body|
      && body[|opening|..|opening| + |section|] == section
  {
    var body := EmailBody(w, data, report, rewrite);
    var opening := BodyOpening(w, data, report, rewrite);
    var section := AdditionsSection(w, report.additions);
    assert body == opening + section + BodyClosing(w);
    assert (opening + section + BodyClosing(w))[|opening|..|opening| + |section|] == section;
  }

  /** The corrections never reach the e-mail. */
  lemma EmailIgnoresCorrections(w: Wording, data: ParsedListingData, report: AuditReport, rewrite: seq<Block>, corrections: seq<Correction>)
    ensures EmailBody(w, data, report, rewrite) == EmailBody(w, data, report.(corrections := corrections), rewrite)
  {
  }

  // ---------------------------------------------------------------------------
  // Reading the additions list back

  /** The lines of an additions list: each starts with "- " and ends with a line feed. */
  function ReadBullets(s: string): Option<seq<string>>
    decreases |s|
  {
    if s == [] then Some([])
    else if |s| >= 2 && s[0] == '-' && s[1] == ' ' && '\n' in s[2..] then
      var k := IndexOf(s[2..], '\n');
      match ReadBullets(s[2 + k + 1..])
      case None => None
      case Some(rest) => Some([s[2..2 + k]] + rest)
    else None
  }

  lemma {:induction false} BulletsFront(specs: seq<string>)
    requires specs != []
    ensures Bullets(specs) == Bullet(specs[0]) + Bullets(specs[1..])
    decreases |specs|
  {
    if |specs| == 1 {
      assert specs[..0] == [];
      assert specs[1..] == [];
    } else {
      var init := specs[..|specs| - 1];
      BulletsFront(init);
      assert init[0] == specs[0];
      assert init[1..] == specs[1..][..|specs[1..]| - 1];
      assert specs[1..][|specs[1..]| - 1] == specs[|specs| - 1];
      AppendAssoc(Bullet(specs[0]), Bullets(init[1..]), Bullet(specs[|specs| - 1]));
    }
  }

  /** Each addition without a line feed comes back as one line of the list, in order. */
  lemma {:induction false} BulletsReadBack(specs: seq<string>)
    requires forall x :: x in specs ==> '\n' !in x
    ensures ReadBullets(Bullets(specs)) == Some(specs)
    decreases |specs|
  {
    if specs != [] {
      var x := specs[0];
      assert x in specs;
      BulletsFront(specs);
      BulletsReadBack(specs[1..]);
      ReadOneBullet(x, Bullets(specs[1..]));
      assert [x] + specs[1..] == specs;
    }
  }

  /** One bullet line in front of `more` reads back as its text followed by whatever `more` reads as. */
  lemma ReadOneBullet(x: string, more: string)
    requires '\n' !in x
    ensures ReadBullets(Bullet(x) + more)
      == if ReadBullets(more).Some? then Some([x] + ReadBullets(more).value) else None
  {
    BulletParts(x, more);
  }

  /** Where the dash, the first line feed and the rest lie in a bullet line followed by `more`. */
  lemma BulletParts(x: string, more: string)
    requires '\n' !in x
    ensures var s := Bullet(x) + more;
      && |s| >= 2 && s[0] == '-' && s[1] == ' ' && '\n' in s[2..]
      && IndexOf(s[2..], '\n') == |x| && s[2..2 + |x|] == x && s[2 + |x| + 1..] == more
  {
    var s := Bullet(x) + more;
    assert s == "- " + (x + "\n" + more);
    assert s[2..] == x + "\n" + more;
    FirstLineFeed(x, more);
  }

  lemma FirstLineFeed(x: string, more: string)
    requires '\n' !in x
    ensures '\n' in x + "\n" + more && IndexOf(x + "\n" + more, '\n') == |x|
  {
    var t := x + "\n" + more;
    assert t[|x|] == '\n' && t[|x|] in t;
  }
}
