/**
 Document type declarations with an internal subset (section 2.8 of XML 1.0), as the
 nesting scan of `src/domain/import.rs` reads them: how many levels the bound counts
 for one, and declarations behind which it never refuses anything.
 */
module XmlDeclaration {
  import opened Wrappers
  import opened XmlDepth
  import opened XmlDocument
  import opened XmlPrefix

  /** Read alone, the declaration is closed by its own last bracket and by no earlier one. */
  predicate ClosesItself(declaration: string) {
    ScanTagFrom(declaration + "x", Some('!')) == Tag(false, "x")
  }

  /** What closes before one rest closes before every rest. */
  lemma {:induction false} ClosesBeforeAnyRest(s: string, previous: Option<char>, rest: string)
    requires ScanTagFrom(s + "x", previous) == Tag(false, "x")
    ensures ScanTagFrom(s + rest, previous) == Tag(false, rest)
    decreases |s|
  {
    XClosesNothing(previous);
    assert s == [] ==> s + "x" == "x";
    if s != [] {
      assert (s + "x")[1..] == s[1..] + "x" && (s + rest)[1..] == s[1..] + rest;
      if s[0] == '>' {
        assert s[1..] + "x" == "x" && |s[1..] + "x"| == |s[1..]| + 1;
        assert s[1..] == [] && [] + rest == rest;
      } else if IsQuote(s[0]) {
        AfterQuoteInPrefix(s[1..], s[0], "x");
        AfterQuoteInPrefix(s[1..], s[0], rest);
        QuoteIsNotX(s[0]);
        assert s[0] in s[1..];
        ClosesBeforeAnyRest(AfterQuote(s[1..], s[0]), Some(s[0]), rest);
      } else {
        ClosesBeforeAnyRest(s[1..], Some(s[0]), rest);
      }
    }
  }

  lemma XClosesNothing(previous: Option<char>)
    ensures ScanTagFrom("x", previous) == Tag(false, [])
  {
    assert "x"[1..] == [];
  }

  lemma QuoteIsNotX(quote: char)
    requires IsQuote(quote)
    ensures AfterQuote("x", quote) == [] && ScanTagFrom([], Some(quote)) == Tag(false, [])
  {
    assert "x"[1..] == [];
  }

  /** The scan passes a declaration whole, whatever follows, exactly when it closes itself. */
  lemma PassedWholeExactly(declaration: string)
    ensures ClosesItself(declaration)
       <==> forall rest :: ScanTagFrom(declaration + rest, Some('!')) == Tag(false, rest)
  {
    if ClosesItself(declaration) {
      forall rest ensures ScanTagFrom(declaration + rest, Some('!')) == Tag(false, rest) {
        ClosesBeforeAnyRest(declaration, Some('!'), rest);
      }
    }
  }

  /** The bound behind a declaration is exact, the declaration counting as one level, exactly when the
      declaration read alone settles at one level. One that closes itself does. */
  lemma ExactBehindDeclaration(declaration: string)
    ensures CountsAs("<!" + declaration, 1) <==> Read("<!" + declaration, 0) == Settled(1)
    ensures declaration != [] && declaration[0] == 'D' && ClosesItself(declaration) ==>
              Read("<!" + declaration, 0) == Settled(1)
  {
    hide TooDeep, Read, Print;
    CountsAsExactly("<!" + declaration, 1);
    if declaration != [] && declaration[0] == 'D' && ClosesItself(declaration) {
      forall body: Content | WellFormed(body)
        ensures TooDeep("<!" + declaration + Print(body), 0) <==> 1 + Height(body) > MAX_ELEMENT_DEPTH
      {
        BehindClosed(declaration, body);
      }
    }
  }

  lemma BehindClosed(declaration: string, body: Content)
    requires declaration != [] && declaration[0] == 'D' && ClosesItself(declaration) && WellFormed(body)
    ensures TooDeep("<!" + declaration + Print(body), 0) <==> 1 + Height(body) > MAX_ELEMENT_DEPTH
  {
    assert "<!" + declaration + Print(body) == "<!" + (declaration + Print(body));
    ClosesBeforeAnyRest(declaration, Some('!'), Print(body));
    DeclarationOpensALevel(declaration + Print(body), Print(body));
    assert Print(body) + [] == Print(body);
    ScansContent(body, [], 1);
  }

  /// Subsets that begin with a markup declaration
  /// --------------------------------------------

  datatype Piece =
    | Between(text: string)
    | Markup(node: Node)
    | Declared(text: string)

  /** A markup declaration: its only bracket outside quotes is its last character. */
  predicate MarkupDeclaration(s: string) {
    |s| > 2 && "<!" <= s && IsNameStart(s[2]) && TagCloses(s[1..]) && ScanTagFrom(s[1..], None) == Tag(false, [])
  }

  /** A declaration without literals is one, unless it ends as an empty element does. */
  lemma PlainDeclarations(inside: string)
    requires Plain(inside) && inside != [] && IsNameStart(inside[0]) && inside[|inside| - 1] != '/'
    ensures MarkupDeclaration("<!" + inside + ">")
  {
    hide ScanTagFrom, TagCloses;
    var s := "<!" + inside + ">";
    assert s[1..] == ("!" + inside) + (">" + []);
    BracketEndsTag("!" + inside, []);
  }

  /** Spaces, references, comments, instructions and declarations may stand in a subset. */
  predicate WellFormedPiece(p: Piece) {
    match p
    case Between(text) => '<' !in text
    case Markup(node) => WellFormedNode(node) && (node.Comment? || node.Instruction?)
    case Declared(text) => MarkupDeclaration(text)
  }

  function PrintPiece(p: Piece): string {
    match p
    case Between(text) => text
    case Markup(node) => PrintNode(node)
    case Declared(text) => text
  }

  function PrintPieces(ps: seq<Piece>): string {
    if ps == [] then [] else PrintPiece(ps[0]) + PrintPieces(ps[1..])
  }

  function Declarations(ps: seq<Piece>): nat {
    if ps == [] then 0 else (if ps[0].Declared? then 1 else 0) + Declarations(ps[1..])
  }

  lemma ScansDeclared(text: string, rest: string, depth: nat)
    requires MarkupDeclaration(text)
    ensures TooDeep(text + rest, depth) <==> depth + 1 > MAX_ELEMENT_DEPTH || TooDeep(rest, depth + 1)
  {
    hide TooDeep, TagCloses, ScanTagFrom;
    assert text[0] == '<' && text[1] == '!' && text[2] != '-' && text[2] != '[';
    assert ConstructAt(text) == StartTag;
    SameConstruct(text, rest);
    TooDeepFollows(text + rest, depth);
    assert (text + rest)[1..] == text[1..] + rest;
    TagClosesBefore(text[1..], None, rest);
    assert [] + rest == rest;
  }

  lemma ScansPiece(p: Piece, rest: string, depth: nat)
    requires WellFormedPiece(p)
    ensures TooDeep(PrintPiece(p) + rest, depth)
       <==> if p.Declared? then depth + 1 > MAX_ELEMENT_DEPTH || TooDeep(rest, depth + 1) else TooDeep(rest, depth)
  {
    hide TooDeep, MarkupDeclaration, WellFormedNode, PrintNode;
    match p
    case Between(text) => SkipsText(text, rest, depth);
    case Markup(node) => ScansMarkup(node, rest, depth);
    case Declared(text) => ScansDeclared(text, rest, depth);
  }

  lemma {:induction false} ScansPieces(ps: seq<Piece>, rest: string, depth: nat)
    requires depth <= MAX_ELEMENT_DEPTH && forall i :: 0 <= i < |ps| ==> WellFormedPiece(ps[i])
    ensures var reached := depth + Declarations(ps);
            TooDeep(PrintPieces(ps) + rest, depth) <==> reached > MAX_ELEMENT_DEPTH || TooDeep(rest, reached)
  {
    hide TooDeep, WellFormedPiece, PrintPiece;
    if ps == [] {
      assert PrintPieces(ps) + rest == rest;
    } else {
      var tail := PrintPieces(ps[1..]) + rest;
      assert PrintPieces(ps) + rest == PrintPiece(ps[0]) + tail;
      ScansPiece(ps[0], tail, depth);
      if !ps[0].Declared? {
        ScansPieces(ps[1..], rest, depth);
      } else if depth < MAX_ELEMENT_DEPTH {
        ScansPieces(ps[1..], rest, depth + 1);
      }
    }
  }

  /** What stands before the subset: `<!DOCTYPE` with a name and keywords, literals, and a bracket. */
  datatype Opening = Opening(name: string, literals: seq<Quoted>, bracket: string)

  predicate WellFormedOpening(o: Opening) {
    IsLead(o.name) && o.name[0] == 'D' && WellFormedQuoted(o.literals) && Plain(o.bracket)
  }

  /** The declaration's own opening runs into the subset's first markup declaration and is one level with it. */
  lemma OpeningJoinsFirst(o: Opening, first: string, rest: string)
    requires WellFormedOpening(o) && MarkupDeclaration(first)
    ensures TooDeep("<!" + (o.name + (PrintQuoted(o.literals) + (o.bracket + (first + rest)))), 0) == TooDeep(rest, 1)
  {
    hide TooDeep, TagCloses, ScanTagFrom, IsLead, WellFormedQuoted, PrintQuoted;
    var bracket, tail := o.bracket + "<", first[1..] + rest;
    var literals := PrintQuoted(o.literals) + (bracket + tail);
    assert o.bracket + (first + rest) == bracket + tail;
    LeadEndsWithoutSlash(o.name);
    SkipsPlain(o.name, literals, Some('!'));
    var last := SkipsQuoted(o.literals, bracket + tail, LastOr(o.name, Some('!')));
    SkipsPlain(bracket, tail, last);
    TagClosesBefore(first[1..], None, rest);
    assert [] + rest == rest;
    PreviousDoesNotMatter(tail, Some('<'));
    assert (o.name + literals)[0] == o.name[0];
    DeclarationOpensALevel(o.name + literals, rest);
  }

  lemma LeadEndsWithoutSlash(lead: string)
    requires IsLead(lead)
    ensures Plain(lead) && LastOr(lead, Some('!')) != Some('/') && lead != []
  {
  }

  lemma PreviousDoesNotMatter(s: string, previous: Option<char>)
    requires s != [] && s[0] != '>'
    ensures ScanTagFrom(s, previous) == ScanTagFrom(s, None)
  {
  }

  /** A subset that begins with a markup declaration counts its markup declarations, neither more nor
      fewer, whatever its comments, instructions and literals hold. */
  lemma SubsetCountsItsDeclarations(o: Opening, first: string, pieces: seq<Piece>, body: Content)
    requires WellFormedOpening(o) && MarkupDeclaration(first) && WellFormed(body)
    requires forall i :: 0 <= i < |pieces| ==> WellFormedPiece(pieces[i])
    ensures var subset := first + (PrintPieces(pieces) + ("]>" + Print(body)));
            TooDeep("<!" + (o.name + (PrintQuoted(o.literals) + (o.bracket + subset))), 0)
            <==> 1 + Declarations(pieces) + Height(body) > MAX_ELEMENT_DEPTH
  {
    hide TooDeep, Print, PrintQuoted, WellFormedOpening, MarkupDeclaration, WellFormedPiece;
    var n := 1 + Declarations(pieces);
    OpeningJoinsFirst(o, first, PrintPieces(pieces) + ("]>" + Print(body)));
    ScansPieces(pieces, "]>" + Print(body), 1);
    SkipsText("]>", Print(body), n);
    if n <= MAX_ELEMENT_DEPTH {
      assert Print(body) + [] == Print(body);
      ScansContent(body, [], n);
      NothingIsNotTooDeep(n);
    }
  }

  /// Declarations that stay open
  /// ---------------------------

  const SUBSET := "DOCTYPE a [<!--"
  const CLOSE := "-->]>"

  /** An apostrophe in a comment that begins the subset is taken for an opening quote, and swallows
      whatever follows up to another one. */
  lemma ApostropheHidesNesting(before: string, after: string)
    requires Plain(before) && '\'' !in after
    ensures var declaration := "<!" + (SUBSET + (before + ("'" + after)));
            && Read(declaration, 0) == Open && !MissesNothing(declaration)
            && forall rest :: '\'' !in rest ==> !TooDeep(declaration + rest, 0)
  {
    hide Read, TagCloses, TooDeep;
    var lead := "!" + SUBSET + before;
    var s := "<!" + (SUBSET + (before + ("'" + after)));
    assert s[1..] == lead + ("'" + after);
    PlainClosesNothing(lead, "'" + after);
    NeverClosed(after, '\'');
    QuoteStaysOpen(after);
    TagStaysOpen(s);
    MissesNothingExactly(s);
    forall rest | '\'' !in rest ensures !TooDeep(s + rest, 0) {
      SwallowsTheRest(lead, after + rest);
      assert s + rest == "<!" + (SUBSET + (before + ("'" + (after + rest))));
      assert (s + rest)[1..] == lead + ("'" + (after + rest));
      OpensALevel(s + rest);
    }
  }

  lemma QuoteStaysOpen(after: string)
    requires AfterQuote(after, '\'') == []
    ensures !TagCloses("'" + after)
  {
    assert ("'" + after)[1..] == after;
  }

  lemma {:induction false} NeverClosed(s: string, quote: char)
    requires quote !in s
    ensures AfterQuote(s, quote) == []
  {
    if s != [] {
      assert s == [s[0]] + s[1..];
      NeverClosed(s[1..], quote);
    }
  }

  lemma SwallowsTheRest(lead: string, after: string)
    requires Plain(lead) && '\'' !in after
    ensures ScanTagFrom(lead + ("'" + after), None) == Tag(false, [])
  {
    SkipsPlain(lead, "'" + after, None);
    assert ("'" + after)[1..] == after;
    NeverClosed(after, '\'');
  }

  lemma OpensALevel(s: string)
    requires "<!D" <= s && ScanTagFrom(s[1..], None) == Tag(false, [])
    ensures !TooDeep(s, 0)
  {
    hide TooDeep, ScanTagFrom, AfterFirst, ConstructAt;
    DeclarationIsATag(s);
    TooDeepFollows(s, 0);
    NothingIsNotTooDeep(1);
  }

  /** A bracket in such a comment ends the declaration for the scan, which reads on inside the comment. */
  lemma BracketEndsTheDeclaration(before: string, section: string)
    requires Plain(before) && (before != [] ==> before[|before| - 1] != '/')
    ensures Read("<!" + (SUBSET + (before + (">" + section))), 0) == Read(section, 1)
  {
    hide Read, ScanTagFrom, TagCloses, Closes, Plain;
    var lead := "!" + SUBSET + before;
    var s := "<!" + (SUBSET + (before + (">" + section)));
    assert s[1..] == lead + (">" + section);
    LeadIsPlain(before);
    BracketEndsTag(lead, section);
    ReadsPastTag(s, section);
  }

  /** An instruction or a CDATA section that opens behind such a bracket hides what follows it. */
  lemma SectionInCommentHidesNesting(before: string, opening: string, after: string)
    requires Plain(before) && (before != [] ==> before[|before| - 1] != '/')
    requires opening == "<?" || opening == "<![CDATA["
    requires !Closes(after, if opening == "<?" then "?>" else "]]>")
    ensures !MissesNothing("<!" + (SUBSET + (before + (">" + (opening + after)))))
  {
    hide Read, Closes, Plain, MissesNothing;
    SectionStaysOpen(opening, after);
    BracketEndsTheDeclaration(before, opening + after);
    MissesNothingExactly("<!" + (SUBSET + (before + (">" + (opening + after)))));
  }

  lemma LeadIsPlain(before: string)
    requires Plain(before)
    ensures Plain("!" + SUBSET + before)
    ensures LastOr("!" + SUBSET + before, None) == if before == [] then Some('-') else Some(before[|before| - 1])
  {
  }

  lemma BracketEndsTag(lead: string, rest: string)
    requires Plain(lead) && LastOr(lead, None) != Some('/')
    ensures TagCloses(lead + (">" + rest)) && ScanTagFrom(lead + (">" + rest), None) == Tag(false, rest)
  {
    hide ScanTagFrom, Plain;
    PlainClosesNothing(lead, ">" + rest);
    SkipsPlain(lead, ">" + rest, None);
    BracketEnds(rest, LastOr(lead, None));
  }

  lemma {:induction false} PlainClosesNothing(plain: string, rest: string)
    requires Plain(plain)
    ensures TagCloses(plain + rest) == TagCloses(rest)
  {
    if plain == [] {
      assert plain + rest == rest;
    } else {
      assert (plain + rest)[1..] == plain[1..] + rest;
      PlainClosesNothing(plain[1..], rest);
    }
  }

  lemma DeclarationIsATag(s: string)
    requires "<!D" <= s
    ensures ConstructAt(s) == StartTag
  {
    assert s[0] == '<' && s[1] == '!' && s[2] == 'D';
  }

  lemma TagStaysOpen(s: string)
    requires "<!D" <= s && !TagCloses(s[1..])
    ensures Read(s, 0) == Open
  {
    hide TagCloses, ScanTagFrom, ConstructAt;
    DeclarationIsATag(s);
  }

  lemma ReadsPastTag(s: string, rest: string)
    requires "<!D" <= s && TagCloses(s[1..]) && ScanTagFrom(s[1..], None) == Tag(false, rest)
    ensures Read(s, 0) == Read(rest, 1)
  {
    hide TagCloses, ScanTagFrom, ConstructAt;
    DeclarationIsATag(s);
  }

  lemma SectionStaysOpen(opening: string, after: string)
    requires opening == "<?" || opening == "<![CDATA["
    requires !Closes(after, if opening == "<?" then "?>" else "]]>")
    ensures Read(opening + after, 1) == Open
  {
    hide Closes;
    var s := opening + after;
    assert s[|opening|..] == after && s[0] == opening[0] && s[1] == opening[1];
    assert opening == "<![CDATA[" ==> s[2] == '[';
  }
}
