/**
 What the nesting scan of `src/domain/import.rs` makes of the bytes before the root
 element, whatever they are: the depth it has reached when they end, or that it is still
 inside a construct and reads on into the elements.

 `Read` follows `TooDeep`. From what it says of the bytes before follows, for every
 content behind them, what the bound does.
 */
module XmlPrefix {
  import opened Wrappers
  import opened XmlDepth
  import opened XmlDocument

  datatype Reading =
    | Refused
    | Open
    | Settled(depth: nat)

  /** The delimiter occurs. */
  predicate Closes(s: string, delimiter: string) {
    s != [] && (delimiter <= s || Closes(s[1..], delimiter))
  }

  /** A bracket outside quotes occurs. */
  predicate TagCloses(s: string)
    decreases |s|
  {
    s != [] && (s[0] == '>' || TagCloses(if IsQuote(s[0]) then AfterQuote(s[1..], s[0]) else s[1..]))
  }

  datatype Construct =
    | Character
    | Skipped(opening: nat, delimiter: string)
    | StartTag

  function ConstructAt(s: string): (c: Construct)
    requires s != []
    ensures c.Skipped? ==> 0 < c.opening <= |s|
  {
    if s[0] != '<' then Character
    else if "<!--" <= s then Skipped(4, "-->")
    else if "<![CDATA[" <= s then Skipped(9, "]]>")
    else if "<?" <= s then Skipped(2, "?>")
    else if "</" <= s then Skipped(1, ">")
    else StartTag
  }

  /** The depth once a construct is skipped: a close tag is the one whose delimiter is a bracket. */
  function DepthPast(delimiter: string, depth: nat): nat {
    if delimiter == ">" && depth > 0 then depth - 1 else depth
  }

  datatype Move = Stuck | Over | On(rest: string, depth: nat)

  /** One construct of the scan: past it, over the bound, or stuck in it when the bytes end. */
  function Next(s: string, depth: nat): (m: Move)
    requires s != [] && depth <= MAX_ELEMENT_DEPTH
    ensures m.On? ==> |m.rest| < |s| && m.depth <= MAX_ELEMENT_DEPTH
  {
    match ConstructAt(s)
    case Character => On(s[1..], depth)
    case Skipped(opening, delimiter) =>
      if Closes(s[opening..], delimiter) then On(AfterFirst(s[opening..], delimiter), DepthPast(delimiter, depth))
      else Stuck
    case StartTag =>
      var tag := ScanTagFrom(s[1..], None);
      if !TagCloses(s[1..]) then Stuck
      else if tag.selfClosing then On(tag.rest, depth)
      else if depth == MAX_ELEMENT_DEPTH then Over
      else On(tag.rest, depth + 1)
  }

  function Read(s: string, depth: nat): Reading
    requires depth <= MAX_ELEMENT_DEPTH
    decreases |s|
  {
    if s == [] then Settled(depth)
    else
      match Next(s, depth)
      case Stuck => Open
      case Over => Refused
      case On(rest, d) => Read(rest, d)
  }

  /// Constructs that end within the prefix
  /// -------------------------------------

  lemma {:induction false} ClosesBefore(s: string, delimiter: string, rest: string)
    requires Closes(s, delimiter)
    ensures AfterFirst(s + rest, delimiter) == AfterFirst(s, delimiter) + rest
  {
    if delimiter <= s {
      assert delimiter <= s + rest;
    } else {
      assert (s + rest)[1..] == s[1..] + rest;
      ClosesWithin(s, delimiter, rest);
      ClosesBefore(s[1..], delimiter, rest);
    }
  }

  /** A delimiter found later does not begin at the front. */
  lemma ClosesWithin(s: string, delimiter: string, rest: string)
    requires Closes(s, delimiter) && !(delimiter <= s)
    ensures !(delimiter <= s + rest)
  {
    ClosingIsNoShorter(s, delimiter);
  }

  lemma {:induction false} ClosingIsNoShorter(s: string, delimiter: string)
    requires Closes(s, delimiter)
    ensures |delimiter| <= |s|
  {
    if !(delimiter <= s) {
      ClosingIsNoShorter(s[1..], delimiter);
    }
  }

  lemma {:induction false} AfterQuoteInPrefix(s: string, quote: char, rest: string)
    ensures quote in s ==> |AfterQuote(s, quote)| < |s| && AfterQuote(s + rest, quote) == AfterQuote(s, quote) + rest
    ensures quote !in s ==> AfterQuote(s, quote) == [] && AfterQuote(s + rest, quote) == AfterQuote(rest, quote)
  {
    if s == [] {
      assert s + rest == rest;
    } else {
      assert (s + rest)[1..] == s[1..] + rest && s == [s[0]] + s[1..];
      AfterQuoteInPrefix(s[1..], quote, rest);
    }
  }

  lemma {:induction false} TagClosesBefore(s: string, previous: Option<char>, rest: string)
    requires TagCloses(s)
    ensures var tag := ScanTagFrom(s, previous);
            ScanTagFrom(s + rest, previous) == Tag(tag.selfClosing, tag.rest + rest)
    decreases |s|
  {
    assert (s + rest)[1..] == s[1..] + rest;
    if s[0] != '>' {
      if IsQuote(s[0]) {
        AfterQuoteInPrefix(s[1..], s[0], rest);
        TagClosesBefore(AfterQuote(s[1..], s[0]), Some(s[0]), rest);
      } else {
        TagClosesBefore(s[1..], Some(s[0]), rest);
      }
    }
  }

  lemma {:induction false} TagNeedsABracket(s: string)
    requires TagCloses(s)
    ensures '>' in s
    decreases |s|
  {
    assert s == [s[0]] + s[1..];
    if IsQuote(s[0]) && s[0] != '>' {
      AfterQuoteInPrefix(s[1..], s[0], []);
      TagNeedsABracket(AfterQuote(s[1..], s[0]));
      AfterQuoteIsLater(s[1..], s[0], '>');
    } else if s[0] != '>' {
      TagNeedsABracket(s[1..]);
    }
  }

  lemma {:induction false} AfterQuoteIsLater(s: string, quote: char, c: char)
    ensures c in AfterQuote(s, quote) ==> c in s
  {
    if s != [] {
      assert s == [s[0]] + s[1..];
      AfterQuoteIsLater(s[1..], quote, c);
    }
  }

  /** What follows does not change which construct the bytes begin with, unless it completes an
      opening that they only start. */
  lemma SameConstruct(s: string, rest: string)
    requires s != [] && (ConstructAt(s).StartTag? ==> TagCloses(s[1..]) || (rest != [] && rest[0] == '<'))
    ensures ConstructAt(s + rest) == ConstructAt(s)
  {
    hide TagCloses;
    if ConstructAt(s).StartTag? {
      OpeningIsComplete(s, rest, "<!--");
      OpeningIsComplete(s, rest, "<![CDATA[");
      OpeningIsComplete(s, rest, "<?");
      OpeningIsComplete(s, rest, "</");
    } else if ConstructAt(s).Skipped? {
      var all := s + rest;
      assert all[0] == s[0] && all[1] == s[1];
      assert ConstructAt(s).opening == 9 ==> all[2] == s[2];
    }
  }

  lemma OpeningIsComplete(s: string, rest: string, opening: string)
    requires s != [] && !(opening <= s) && '>' !in opening && (forall i :: 1 <= i < |opening| ==> opening[i] != '<')
    requires TagCloses(s[1..]) || (rest != [] && rest[0] == '<')
    ensures !(opening <= s + rest)
  {
    var all := s + rest;
    if TagCloses(s[1..]) {
      TagNeedsABracket(s[1..]);
      var i :| 0 <= i < |s[1..]| && s[1..][i] == '>';
      assert all[i + 1] == '>';
    } else {
      assert all[|s|] == '<';
    }
  }

  /// The scan behind a prefix
  /// ------------------------

  lemma TooDeepFollows(s: string, depth: nat)
    requires s != []
    ensures TooDeep(s, depth)
         == match ConstructAt(s)
            case Character => TooDeep(s[1..], depth)
            case Skipped(opening, delimiter) => TooDeep(AfterFirst(s[opening..], delimiter), DepthPast(delimiter, depth))
            case StartTag =>
              var tag := ScanTagFrom(s[1..], None);
              if tag.selfClosing then TooDeep(tag.rest, depth)
              else depth + 1 > MAX_ELEMENT_DEPTH || TooDeep(tag.rest, depth + 1)
  {
    hide AfterFirst, ScanTagFrom;
  }

  lemma NextHolds(s: string, rest: string, depth: nat)
    requires s != [] && depth <= MAX_ELEMENT_DEPTH
    ensures var m := Next(s, depth);
            && (m.On? ==> TooDeep(s + rest, depth) == TooDeep(m.rest + rest, m.depth))
            && (m.Over? ==> TooDeep(s + rest, depth))
  {
    hide TooDeep, AfterFirst, ScanTagFrom, ConstructAt, Closes, TagCloses;
    if !Next(s, depth).Stuck? {
      SameConstruct(s, rest);
      TooDeepFollows(s + rest, depth);
      match ConstructAt(s)
      case Character =>
        assert (s + rest)[1..] == s[1..] + rest;
      case Skipped(opening, delimiter) =>
        assert (s + rest)[opening..] == s[opening..] + rest;
        ClosesBefore(s[opening..], delimiter, rest);
      case StartTag =>
        assert (s + rest)[1..] == s[1..] + rest;
        TagClosesBefore(s[1..], None, rest);
    }
  }

  /** Whatever follows a prefix, the scan reads it from the depth at which the prefix settles. */
  lemma {:induction false} ReadsOn(before: string, rest: string, depth: nat)
    requires depth <= MAX_ELEMENT_DEPTH
    ensures var r := Read(before, depth);
            && (r.Settled? ==> r.depth <= MAX_ELEMENT_DEPTH && TooDeep(before + rest, depth) == TooDeep(rest, r.depth))
            && (r.Refused? ==> TooDeep(before + rest, depth))
    decreases |before|
  {
    hide TooDeep, Next;
    if before == [] {
      assert before + rest == rest;
    } else {
      NextHolds(before, rest, depth);
      match Next(before, depth)
      case On(r, d) => ReadsOn(r, rest, d);
      case _ =>
    }
  }

  /// What an open construct hides
  /// ----------------------------

  /** Elements nested `n` deep and nothing else. */
  function Chain(n: nat): Content {
    if n == 0 then Nil else Cons(Element("a", [], [], Chain(n - 1), []), Nil)
  }

  lemma {:induction false} ChainIsPlain(n: nat)
    ensures WellFormed(Chain(n)) && Height(Chain(n)) == n
    ensures forall c :: c in Print(Chain(n)) ==> c in "<a>/"
    ensures n > 0 ==> Print(Chain(n)) != [] && Print(Chain(n))[0] == '<'
  {
    if n > 0 {
      ChainIsPlain(n - 1);
      var inner := Print(Chain(n - 1));
      assert PrintNode(Chain(n).head) == "<" + "a" + [] + [] + ">" + inner + "</" + "a" + [] + ">";
      assert Print(Chain(n)) == PrintNode(Chain(n).head);
    }
  }

  /** A construct left open reads on to its delimiter in what follows. */
  lemma {:induction false} StaysOpen(s: string, delimiter: string, rest: string)
    requires !Closes(s, delimiter) && rest != [] && rest[0] !in delimiter && delimiter != []
    ensures AfterFirst(s + rest, delimiter) == AfterFirst(rest, delimiter)
  {
    if s == [] {
      assert s + rest == rest;
    } else {
      var all := s + rest;
      assert all[1..] == s[1..] + rest;
      assert all[|s|] == rest[0];
      StaysOpen(s[1..], delimiter, rest);
    }
  }

  lemma {:induction false} NeverFound(s: string, delimiter: string)
    requires delimiter != [] && delimiter[0] !in s
    ensures AfterFirst(s, delimiter) == []
  {
    if s != [] {
      assert s[0] in s;
      NeverFound(s[1..], delimiter);
    }
  }

  /** A comment that closes an open tag, after closing its open quote if any, and then reads as the
      start of a CDATA section. */
  function Trap(lead: string): Node { Comment(lead + "/><![CDATA[") }

  predicate IsLeadIn(lead: string) { lead == [] || (|lead| == 1 && IsQuote(lead[0])) }

  lemma TrapIsWellFormed(lead: string)
    requires IsLeadIn(lead)
    ensures WellFormedNode(Trap(lead)) && NodeHeight(Trap(lead)) == 0
  {
    var body := lead + "/><![CDATA[";
    forall i | 0 <= i <= |body| ensures !("--" <= body[i..]) {
      if i < |body| {
        assert body[i..][0] == body[i] && body[i] != '-';
      }
    }
  }

  /** What is left of a trap and of the elements behind it once the trap has closed the open tag. */
  function Sprung(n: nat): string { "<![CDATA[" + ("-->" + Print(Chain(n))) }

  lemma TrapText(lead: string, n: nat)
    ensures Print(Cons(Trap(lead), Chain(n))) == "<!--" + (lead + ("/" + (">" + Sprung(n))))
  {
    var body := lead + "/><![CDATA[";
    assert PrintNode(Trap(lead)) == "<!--" + body + "-->";
    assert "/><![CDATA[" == "/" + (">" + "<![CDATA[");
  }

  lemma SprungHides(n: nat, depth: nat)
    ensures !TooDeep(Sprung(n), depth)
  {
    hide AfterFirst;
    var s := Sprung(n);
    var inside := "-->" + Print(Chain(n));
    assert s[0] == '<' && s[1] == '!' && s[2] == '[' && s[..9] == "<![CDATA[" && s[9..] == inside;
    ChainIsPlain(n);
    NeverFound(inside, "]]>");
  }

  /** The trap as the scan of a tag reads it, before what follows its bracket. */
  function TrapThen(lead: string, tail: string): string { "<!--" + (lead + ("/" + (">" + tail))) }

  lemma TrapClosesPlain(previous: Option<char>, tail: string)
    ensures ScanTagFrom(TrapThen("", tail), previous) == Tag(true, tail)
  {
    hide ScanTagFrom;
    var end := "/" + (">" + tail);
    assert TrapThen("", tail) == "<!--" + end;
    SkipsPlain("<!--", end, previous);
    BracketEnds(tail, Some('-'));
  }

  lemma TrapClosesQuote(quote: char, tail: string)
    requires IsQuote(quote)
    ensures ScanTagFrom(AfterQuote(TrapThen([quote], tail), quote), Some(quote)) == Tag(true, tail)
  {
    hide ScanTagFrom, AfterQuote;
    var end := "/" + (">" + tail);
    assert TrapThen([quote], tail) == "<!--" + [quote] + end;
    SkipsValue("<!--", quote, end);
    BracketEnds(tail, Some(quote));
  }

  lemma ScanTagSkips(s: string, rest: string, previous: Option<char>)
    requires s != [] && s[0] != '>'
    ensures ScanTagFrom(s + rest, previous)
         == ScanTagFrom(if IsQuote(s[0]) then AfterQuote(s[1..] + rest, s[0]) else s[1..] + rest, Some(s[0]))
  {
    hide AfterQuote;
    assert (s + rest)[1..] == s[1..] + rest;
  }

  /** A tag left open is closed by a trap, and closed as an empty element. */
  lemma {:induction false} TrapClosesTag(s: string, previous: Option<char>, tail: string) returns (lead: string)
    requires !TagCloses(s)
    ensures IsLeadIn(lead) && ScanTagFrom(s + TrapThen(lead, tail), previous) == Tag(true, tail)
    decreases |s|
  {
    hide ScanTagFrom, AfterQuote, TrapThen;
    if s == [] {
      lead := [];
      assert s + TrapThen(lead, tail) == TrapThen("", tail);
      TrapClosesPlain(previous, tail);
    } else if IsQuote(s[0]) && s[0] !in s[1..] {
      lead := [s[0]];
      ScanTagSkips(s, TrapThen(lead, tail), previous);
      AfterQuoteInPrefix(s[1..], s[0], TrapThen(lead, tail));
      TrapClosesQuote(s[0], tail);
    } else {
      var next := if IsQuote(s[0]) then AfterQuote(s[1..], s[0]) else s[1..];
      AfterQuoteInPrefix(s[1..], s[0], "");
      lead := TrapClosesTag(next, Some(s[0]), tail);
      ScanTagSkips(s, TrapThen(lead, tail), previous);
      AfterQuoteInPrefix(s[1..], s[0], TrapThen(lead, tail));
    }
  }

  /** A comment, a CDATA section or an instruction left open swallows nested elements whole. */
  lemma StuckSkipping(s: string, depth: nat, n: nat)
    requires s != [] && depth <= MAX_ELEMENT_DEPTH && Next(s, depth) == Stuck && n > 0
    requires ConstructAt(s).Skipped? && ConstructAt(s).delimiter != ">"
    ensures !TooDeep(s + Print(Chain(n)), depth)
  {
    hide TooDeep, AfterFirst, Closes, TagCloses;
    var construct, chain := ConstructAt(s), Print(Chain(n));
    ChainIsPlain(n);
    SameConstruct(s, chain);
    TooDeepFollows(s + chain, depth);
    assert (s + chain)[construct.opening..] == s[construct.opening..] + chain;
    StaysOpen(s[construct.opening..], construct.delimiter, chain);
    NeverFound(chain, construct.delimiter);
    NothingIsNotTooDeep(DepthPast(construct.delimiter, depth));
  }

  lemma NothingIsNotTooDeep(depth: nat)
    ensures !TooDeep([], depth)
  {
  }

  lemma BracketOfTrap(n: nat)
    ensures AfterFirst(TrapThen("", Sprung(n)), ">") == Sprung(n)
  {
    hide Sprung;
    var before := "<!--/";
    assert TrapThen("", Sprung(n)) == before + ">" + Sprung(n);
    forall i | 0 <= i < |before| ensures !(">" <= before[i..] + ">" + Sprung(n)) {
      assert (before[i..] + ">" + Sprung(n))[0] == before[i];
    }
    SkipsBody(before, ">", Sprung(n));
  }

  /** A close tag left open reads to the bracket of a trap, which hides what follows it. */
  lemma StuckAtClose(s: string, depth: nat, n: nat)
    requires s != [] && depth <= MAX_ELEMENT_DEPTH && Next(s, depth) == Stuck
    requires ConstructAt(s).Skipped? && ConstructAt(s).delimiter == ">"
    ensures !TooDeep(s + TrapThen("", Sprung(n)), depth)
  {
    hide TooDeep, AfterFirst, Closes, TagCloses, Sprung;
    var construct, trap := ConstructAt(s), TrapThen("", Sprung(n));
    SameConstruct(s, trap);
    TooDeepFollows(s + trap, depth);
    assert (s + trap)[construct.opening..] == s[construct.opening..] + trap;
    StaysOpen(s[construct.opening..], ">", trap);
    BracketOfTrap(n);
    SprungHides(n, DepthPast(">", depth));
  }

  /** A start tag left open is closed by a trap, which hides what follows it. */
  lemma StuckInTag(s: string, depth: nat, n: nat) returns (lead: string)
    requires s != [] && depth <= MAX_ELEMENT_DEPTH && Next(s, depth) == Stuck && ConstructAt(s).StartTag?
    ensures IsLeadIn(lead) && !TooDeep(s + TrapThen(lead, Sprung(n)), depth)
  {
    hide TooDeep, ScanTagFrom, TagCloses, Sprung;
    lead := TrapClosesTag(s[1..], None, Sprung(n));
    var trap := TrapThen(lead, Sprung(n));
    SameConstruct(s, trap);
    TooDeepFollows(s + trap, depth);
    assert (s + trap)[1..] == s[1..] + trap;
    SprungHides(n, depth);
  }

  lemma TrapHidesChain(lead: string, n: nat)
    requires IsLeadIn(lead)
    ensures var body := Cons(Trap(lead), Chain(n));
            WellFormed(body) && Height(body) == n && Print(body) == TrapThen(lead, Sprung(n))
  {
    hide Trap, WellFormedNode, NodeHeight, IsLeadIn;
    TrapIsWellFormed(lead);
    ChainIsPlain(n);
    TrapText(lead, n);
  }

  /** Behind a prefix that leaves a construct open there is well-formed content, nested as deep as one
      likes, that is not refused. */
  lemma {:induction false} OpenHides(before: string, depth: nat, n: nat) returns (body: Content)
    requires depth <= MAX_ELEMENT_DEPTH && Read(before, depth) == Open && n > 0
    ensures WellFormed(body) && Height(body) == n && !TooDeep(before + Print(body), depth)
    decreases |before|
  {
    hide TooDeep, Next, Print, Trap, Chain, WellFormed, Height;
    var m := Next(before, depth);
    if m.On? {
      body := OpenHides(m.rest, m.depth, n);
      NextHolds(before, Print(body), depth);
    } else {
      body := StuckHides(before, depth, n);
    }
  }

  lemma StuckHides(s: string, depth: nat, n: nat) returns (body: Content)
    requires s != [] && depth <= MAX_ELEMENT_DEPTH && Next(s, depth) == Stuck && n > 0
    ensures WellFormed(body) && Height(body) == n && !TooDeep(s + Print(body), depth)
  {
    hide TooDeep, Print, Trap, Chain, WellFormed, Height, TrapThen, Sprung;
    var lead := "";
    if ConstructAt(s).StartTag? {
      lead := StuckInTag(s, depth, n);
    } else if ConstructAt(s).delimiter == ">" {
      StuckAtClose(s, depth, n);
    } else {
      StuckSkipping(s, depth, n);
      ChainIsPlain(n);
      return Chain(n);
    }
    TrapHidesChain(lead, n);
    body := Cons(Trap(lead), Chain(n));
  }

  /// What the bound does behind any prefix, exactly
  /// ----------------------------------------------

  /** Behind a prefix that settles, the bound measures the content from the depth reached. */
  lemma BoundBehind(before: string, body: Content)
    requires WellFormed(body) && Read(before, 0).Settled?
    ensures TooDeep(before + Print(body), 0) <==> Read(before, 0).depth + Height(body) > MAX_ELEMENT_DEPTH
  {
    hide TooDeep, Read;
    ReadsOn(before, Print(body), 0);
    ScansContent(body, [], Read(before, 0).depth);
    assert Print(body) + [] == Print(body);
    NothingIsNotTooDeep(Read(before, 0).depth);
  }

  /** No content nested past the bound slips through behind the prefix. */
  ghost predicate MissesNothing(before: string) {
    forall body: Content :: WellFormed(body) && Height(body) > MAX_ELEMENT_DEPTH ==> TooDeep(before + Print(body), 0)
  }

  /** No content nested past the bound slips through behind a prefix exactly when the prefix leaves no
      comment, CDATA section, instruction, tag or quote open. */
  lemma MissesNothingExactly(before: string)
    ensures MissesNothing(before) <==> !Read(before, 0).Open?
  {
    hide TooDeep, Read, Print;
    match Read(before, 0)
    case Open =>
      var body := OpenHides(before, 0, MAX_ELEMENT_DEPTH + 1);
    case _ =>
      forall body: Content | WellFormed(body) && Height(body) > MAX_ELEMENT_DEPTH
        ensures TooDeep(before + Print(body), 0)
      {
        ReadsOn(before, Print(body), 0);
        if Read(before, 0).Settled? {
          BoundBehind(before, body);
        }
      }
  }

  /** Whatever content follows, the bound counts the prefix as `n` open elements. */
  ghost predicate CountsAs(before: string, n: nat) {
    forall body: Content :: WellFormed(body) ==> (TooDeep(before + Print(body), 0) <==> n + Height(body) > MAX_ELEMENT_DEPTH)
  }

  /** A prefix counts as `n` open elements exactly when it settles at that depth. */
  lemma CountsAsExactly(before: string, n: nat)
    requires n <= MAX_ELEMENT_DEPTH
    ensures CountsAs(before, n) <==> Read(before, 0) == Settled(n)
  {
    hide TooDeep, Read, Print, Chain;
    match Read(before, 0)
    case Open =>
      var body := OpenHides(before, 0, MAX_ELEMENT_DEPTH + 1);
    case Refused =>
      ChainIsPlain(0);
      ReadsOn(before, Print(Chain(0)), 0);
    case Settled(d) =>
      ReadsOn(before, [], 0);
      ChainIsPlain(MAX_ELEMENT_DEPTH - Least(d, n));
      BoundBehind(before, Chain(MAX_ELEMENT_DEPTH - Least(d, n)));
      forall body: Content | WellFormed(body) && d == n
        ensures TooDeep(before + Print(body), 0) <==> n + Height(body) > MAX_ELEMENT_DEPTH
      {
        BoundBehind(before, body);
      }
  }

  function Least(a: nat, b: nat): nat { if a < b then a else b }
}
