/**
 The XML documents the nesting bound is stated on, and the proof that the byte
 scan of `src/domain/import.rs` measures them exactly.

 A tree stands for a document of XML 1.0 without an internal DTD subset: character
 data (section 2.4), comments (2.5), processing instructions (2.6), CDATA sections
 (2.7), an external document type declaration (2.8) and tags with quoted attribute
 values (3.1). `Print` writes a tree as bytes.
 */
module XmlDocument {
  import opened XmlDepth
  import opened Wrappers

  /** A quoted literal and what precedes it: `lead` is ` name=` for an attribute. */
  datatype Quoted = Quoted(lead: string, quote: char, value: string)

  datatype Node =
    | Text(text: string)
    | Comment(body: string)
    | CData(body: string)
    | Instruction(body: string)
    | Empty(name: string, attributes: seq<Quoted>, space: string)
    | Element(name: string, attributes: seq<Quoted>, space: string, children: Content, endSpace: string)

  datatype Content = Nil | Cons(head: Node, tail: Content)

  /** `<!DOCTYPE` with its external identifier's literals, if any. */
  datatype Doctype = Doctype(name: string, literals: seq<Quoted>, space: string)

  datatype Document = Document(prolog: Content, doctype: Option<Doctype>, body: Content)

  /// Printing
  /// --------

  function PrintQuoted(qs: seq<Quoted>): string {
    if qs == [] then []
    else qs[0].lead + [qs[0].quote] + qs[0].value + [qs[0].quote] + PrintQuoted(qs[1..])
  }

  function PrintNode(n: Node): string {
    match n
    case Text(text) => text
    case Comment(body) => "<!--" + body + "-->"
    case CData(body) => "<![CDATA[" + body + "]]>"
    case Instruction(body) => "<?" + body + "?>"
    case Empty(name, attributes, space) =>
      "<" + name + PrintQuoted(attributes) + space + "/>"
    case Element(name, attributes, space, children, endSpace) =>
      "<" + name + PrintQuoted(attributes) + space + ">" + Print(children) + "</" + name + endSpace + ">"
  }

  function Print(c: Content): string {
    match c
    case Nil => []
    case Cons(head, tail) => PrintNode(head) + Print(tail)
  }

  function PrintDoctype(d: Option<Doctype>): string {
    match d
    case None => []
    case Some(d) => "<!DOCTYPE" + d.name + PrintQuoted(d.literals) + d.space + ">"
  }

  function PrintDocument(d: Document): string {
    Print(d.prolog) + PrintDoctype(d.doctype) + Print(d.body)
  }

  /// Well-formedness, as the cited sections of XML 1.0 require it
  /// -----------------------------------------------------------

  predicate IsSpace(c: char) { c == ' ' || c == '\t' || c == '\r' || c == '\n' }

  predicate IsNameStart(c: char) {
    'a' <= c <= 'z' || 'A' <= c <= 'Z' || c == '_' || c == ':' || c as int >= 0x80
  }

  predicate IsNameChar(c: char) {
    IsNameStart(c) || '0' <= c <= '9' || c == '-' || c == '.'
  }

  predicate IsName(s: string) {
    s != [] && IsNameStart(s[0]) && forall i :: 0 <= i < |s| ==> IsNameChar(s[i])
  }

  predicate AllSpace(s: string) { forall i :: 0 <= i < |s| ==> IsSpace(s[i]) }

  /** What may stand between literals: names, spaces and equals signs. */
  predicate IsLead(s: string) {
    s != [] && forall i :: 0 <= i < |s| ==> IsNameChar(s[i]) || IsSpace(s[i]) || s[i] == '='
  }

  /** No occurrence of `part` anywhere in `s`. */
  predicate Free(s: string, part: string) {
    forall i :: 0 <= i <= |s| ==> !(part <= s[i..])
  }

  predicate WellFormedQuoted(qs: seq<Quoted>) {
    forall i :: 0 <= i < |qs| ==> IsLead(qs[i].lead) && IsQuote(qs[i].quote) && qs[i].quote !in qs[i].value
  }

  predicate WellFormedNode(n: Node) {
    match n
    case Text(text) => '<' !in text
    case Comment(body) => Free(body, "--") && (body != [] ==> body[|body| - 1] != '-')
    case CData(body) => Free(body, "]]>")
    case Instruction(body) => Free(body, "?>")
    case Empty(name, attributes, space) =>
      IsName(name) && WellFormedQuoted(attributes) && AllSpace(space)
    case Element(name, attributes, space, children, endSpace) =>
      IsName(name) && WellFormedQuoted(attributes) && AllSpace(space) && AllSpace(endSpace) && WellFormed(children)
  }

  predicate WellFormed(c: Content) {
    c.Cons? ==> WellFormedNode(c.head) && WellFormed(c.tail)
  }

  /** The prolog before a document type declaration holds no element. */
  predicate WellFormedDocument(d: Document) {
    WellFormed(d.prolog) && Height(d.prolog) == 0 && WellFormed(d.body) &&
    (d.doctype.Some? ==>
      IsLead(d.doctype.value.name) && WellFormedQuoted(d.doctype.value.literals) && AllSpace(d.doctype.value.space))
  }

  /// How deep a tree nests
  /// ---------------------

  /** The most elements open at once while reading `c`; a self-closed element opens nothing. */
  function Height(c: Content): nat {
    match c
    case Nil => 0
    case Cons(head, tail) => Max(NodeHeight(head), Height(tail))
  }

  function NodeHeight(n: Node): nat {
    if n.Element? then 1 + Height(n.children) else 0
  }

  function Max(a: nat, b: nat): nat { if a < b then b else a }

  /** `c` holds a chain of `n` elements, each inside the one before. */
  predicate HoldsChain(c: Content, n: nat) {
    n == 0 ||
    (c.Cons? && ((c.head.Element? && HoldsChain(c.head.children, n - 1)) || HoldsChain(c.tail, n)))
  }

  /** `Height` is the length of the longest chain of nested elements. */
  lemma {:induction false} HeightIsTheLongestChain(c: Content, n: nat)
    ensures HoldsChain(c, n) <==> n <= Height(c)
  {
    if c.Cons? && n > 0 {
      HeightIsTheLongestChain(c.tail, n);
      if c.head.Element? {
        HeightIsTheLongestChain(c.head.children, n - 1);
      }
    }
  }

  /// Skipping what is not an element
  /// -------------------------------

  /** Searching for a delimiter that first occurs at the end of `body` lands just past it. */
  lemma {:induction false} SkipsBody(body: string, delimiter: string, rest: string)
    requires delimiter != []
    requires forall i :: 0 <= i < |body| ==> !(delimiter <= body[i..] + delimiter + rest)
    ensures AfterFirst(body + delimiter + rest, delimiter) == rest
  {
    var s := body + delimiter + rest;
    if body == [] {
      assert s == delimiter + rest;
    } else {
      assert s == body[0..] + delimiter + rest;
      assert s[1..] == body[1..] + delimiter + rest;
      forall i | 0 <= i < |body[1..]| ensures !(delimiter <= body[1..][i..] + delimiter + rest) {
        assert body[1..][i..] == body[i + 1..];
      }
      SkipsBody(body[1..], delimiter, rest);
    }
  }

  lemma CommentEndsAtItsDelimiter(body: string, rest: string)
    requires WellFormedNode(Comment(body))
    ensures AfterFirst(body + "-->" + rest, "-->") == rest
  {
    forall i | 0 <= i < |body| ensures !("-->" <= body[i..] + "-->" + rest) {
      var t := body[i..] + "-->" + rest;
      assert !("--" <= body[i..]) && t[0] == body[i];
      if i + 1 < |body| {
        assert t[1] == body[i + 1] && body[i..][1] == body[i + 1];
      }
    }
    SkipsBody(body, "-->", rest);
  }

  lemma CDataEndsAtItsDelimiter(body: string, rest: string)
    requires WellFormedNode(CData(body))
    ensures AfterFirst(body + "]]>" + rest, "]]>") == rest
  {
    forall i | 0 <= i < |body| ensures !("]]>" <= body[i..] + "]]>" + rest) {
      var t := body[i..] + "]]>" + rest;
      assert !("]]>" <= body[i..]) && t[0] == body[i];
      if i + 2 < |body| {
        assert t[1] == body[i + 1] && body[i..][1] == body[i + 1];
        assert t[2] == body[i + 2] && body[i..][2] == body[i + 2];
      } else {
        assert t[2] == ']';
      }
    }
    SkipsBody(body, "]]>", rest);
  }

  lemma InstructionEndsAtItsDelimiter(body: string, rest: string)
    requires WellFormedNode(Instruction(body))
    ensures AfterFirst(body + "?>" + rest, "?>") == rest
  {
    forall i | 0 <= i < |body| ensures !("?>" <= body[i..] + "?>" + rest) {
      var t := body[i..] + "?>" + rest;
      assert !("?>" <= body[i..]) && t[0] == body[i];
      if i + 1 < |body| {
        assert t[1] == body[i + 1] && body[i..][1] == body[i + 1];
      } else {
        assert t[1] == '?';
      }
    }
    SkipsBody(body, "?>", rest);
  }

  lemma {:induction false} SkipsText(text: string, rest: string, depth: nat)
    requires '<' !in text
    ensures TooDeep(text + rest, depth) == TooDeep(rest, depth)
  {
    if text == [] {
      assert text + rest == rest;
    } else {
      assert (text + rest)[1..] == text[1..] + rest;
      SkipsText(text[1..], rest, depth);
    }
  }

  lemma CloseTagEndsAtItsBracket(name: string, endSpace: string, rest: string)
    requires IsName(name) && AllSpace(endSpace)
    ensures AfterFirst("/" + name + endSpace + ">" + rest, ">") == rest
  {
    var body := "/" + name + endSpace;
    forall i | 0 <= i < |body| ensures !(">" <= body[i..] + ">" + rest) {
      assert body[i] == if i == 0 then '/' else if i <= |name| then name[i - 1] else endSpace[i - 1 - |name|];
      assert (body[i..] + ">" + rest)[0] == body[i];
    }
    SkipsBody(body, ">", rest);
  }

  /// Inside a tag
  /// ------------

  predicate Plain(s: string) {
    forall i :: 0 <= i < |s| ==> s[i] != '>' && !IsQuote(s[i])
  }

  function LastOr(s: string, previous: Option<char>): Option<char> {
    if s == [] then previous else Some(s[|s| - 1])
  }

  lemma {:induction false} SkipsPlain(plain: string, rest: string, previous: Option<char>)
    requires Plain(plain)
    ensures ScanTagFrom(plain + rest, previous) == ScanTagFrom(rest, LastOr(plain, previous))
  {
    if plain == [] {
      assert plain + rest == rest;
    } else {
      assert (plain + rest)[1..] == plain[1..] + rest;
      SkipsPlain(plain[1..], rest, Some(plain[0]));
    }
  }

  lemma {:induction false} SkipsValue(value: string, quote: char, rest: string)
    requires quote !in value
    ensures AfterQuote(value + [quote] + rest, quote) == rest
  {
    var s := value + [quote] + rest;
    if value == [] {
      assert s == [quote] + rest;
    } else {
      assert s[1..] == value[1..] + [quote] + rest;
      SkipsValue(value[1..], quote, rest);
    }
  }

  /** Quoted literals are passed over whole, and none of them leaves a slash behind. */
  lemma {:induction false} SkipsQuoted(qs: seq<Quoted>, rest: string, previous: Option<char>) returns (last: Option<char>)
    requires WellFormedQuoted(qs) && previous != Some('/')
    ensures last != Some('/')
    ensures ScanTagFrom(PrintQuoted(qs) + rest, previous) == ScanTagFrom(rest, last)
  {
    last := previous;
    if qs == [] {
      assert PrintQuoted(qs) + rest == rest;
    } else {
      var q := qs[0];
      var tail := PrintQuoted(qs[1..]) + rest;
      var quoted := [q.quote] + (q.value + [q.quote] + tail);
      assert PrintQuoted(qs) + rest == q.lead + quoted by {
        assert q.lead + [q.quote] + q.value + [q.quote] + PrintQuoted(qs[1..]) + rest == q.lead + quoted;
      }
      SkipsPlain(q.lead, quoted, previous);
      assert quoted[1..] == q.value + [q.quote] + tail;
      SkipsValue(q.value, q.quote, tail);
      last := SkipsQuoted(qs[1..], rest, Some(q.quote));
    }
  }

  lemma BracketEnds(rest: string, previous: Option<char>)
    ensures ScanTagFrom(">" + rest, previous) == Tag(previous == Some('/'), rest)
    ensures ScanTagFrom("/" + (">" + rest), previous) == Tag(true, rest)
  {
    assert (">" + rest)[1..] == rest && ("/" + (">" + rest))[1..] == ">" + rest;
  }

  lemma ClosesTag(space: string, selfClosing: bool, rest: string, previous: Option<char>)
    requires AllSpace(space) && previous != Some('/')
    ensures ScanTagFrom(space + TagEnd(selfClosing) + rest, previous) == Tag(selfClosing, rest)
  {
    hide ScanTagFrom;
    var end := TagEnd(selfClosing) + rest;
    assert space + TagEnd(selfClosing) + rest == space + end;
    assert end == if selfClosing then "/" + (">" + rest) else ">" + rest;
    SkipsPlain(space, end, previous);
    BracketEnds(rest, LastOr(space, previous));
  }

  function TagEnd(selfClosing: bool): string { if selfClosing then "/>" else ">" }

  /** A printed tag body is read to its bracket; only a final slash makes it self-closing. */
  lemma ScansTagBody(lead: string, qs: seq<Quoted>, space: string, selfClosing: bool, rest: string)
    requires IsLead(lead) && WellFormedQuoted(qs) && AllSpace(space)
    ensures ScanTagFrom(lead + (PrintQuoted(qs) + (space + TagEnd(selfClosing) + rest)), None) == Tag(selfClosing, rest)
  {
    var tail := space + TagEnd(selfClosing) + rest;
    SkipsPlain(lead, PrintQuoted(qs) + tail, None);
    var last := SkipsQuoted(qs, tail, LastOr(lead, None));
    ClosesTag(space, selfClosing, rest, last);
  }

  /// The scan measures the tree
  /// --------------------------

  lemma SkipsComment(body: string, rest: string, depth: nat)
    ensures TooDeep("<!--" + body + "-->" + rest, depth) == TooDeep(AfterFirst(body + "-->" + rest, "-->"), depth)
  {
    var s := "<!--" + body + "-->" + rest;
    assert s[0] == '<' && s[..4] == "<!--" && s[4..] == body + "-->" + rest;
  }

  lemma SkipsCData(body: string, rest: string, depth: nat)
    ensures TooDeep("<![CDATA[" + body + "]]>" + rest, depth) == TooDeep(AfterFirst(body + "]]>" + rest, "]]>"), depth)
  {
    var s := "<![CDATA[" + body + "]]>" + rest;
    assert s[0] == '<' && s[2] == '[' && !("<!--" <= s);
    assert s[..9] == "<![CDATA[" && s[9..] == body + "]]>" + rest;
  }

  lemma SkipsInstruction(body: string, rest: string, depth: nat)
    ensures TooDeep("<?" + body + "?>" + rest, depth) == TooDeep(AfterFirst(body + "?>" + rest, "?>"), depth)
  {
    var s := "<?" + body + "?>" + rest;
    assert s[0] == '<' && s[1] == '?' && !("<!--" <= s) && !("<![CDATA[" <= s);
    assert s[..2] == "<?" && s[2..] == body + "?>" + rest;
  }

  lemma ScansMarkup(n: Node, rest: string, depth: nat)
    requires WellFormedNode(n) && (n.Comment? || n.CData? || n.Instruction?)
    ensures TooDeep(PrintNode(n) + rest, depth) == TooDeep(rest, depth)
  {
    hide TooDeep, AfterFirst;
    match n
    case Comment(body) =>
      SkipsComment(body, rest, depth);
      CommentEndsAtItsDelimiter(body, rest);
    case CData(body) =>
      SkipsCData(body, rest, depth);
      CDataEndsAtItsDelimiter(body, rest);
    case Instruction(body) =>
      SkipsInstruction(body, rest, depth);
      InstructionEndsAtItsDelimiter(body, rest);
  }

  /** A start tag opens one level unless it closes itself. */
  lemma ScansStartTag(name: string, qs: seq<Quoted>, space: string, selfClosing: bool, rest: string, depth: nat)
    requires IsName(name) && WellFormedQuoted(qs) && AllSpace(space)
    ensures TooDeep("<" + name + PrintQuoted(qs) + space + TagEnd(selfClosing) + rest, depth)
       <==> if selfClosing then TooDeep(rest, depth) else depth + 1 > MAX_ELEMENT_DEPTH || TooDeep(rest, depth + 1)
  {
    hide PrintQuoted, ScanTagFrom, AfterFirst;
    var s := "<" + name + PrintQuoted(qs) + space + TagEnd(selfClosing) + rest;
    assert s[1] == name[0];
    assert s[1..] == name + (PrintQuoted(qs) + (space + TagEnd(selfClosing) + rest));
    ScansTagBody(name, qs, space, selfClosing, rest);
  }

  lemma ElementText(n: Node, rest: string)
    requires n.Element?
    ensures PrintNode(n) + rest
         == "<" + n.name + PrintQuoted(n.attributes) + n.space + TagEnd(false)
            + (Print(n.children) + ("</" + n.name + n.endSpace + ">" + rest))
  {
    var start := "<" + n.name + PrintQuoted(n.attributes) + n.space + TagEnd(false);
    var end := "</" + n.name + n.endSpace + ">";
    assert PrintNode(n) == start + Print(n.children) + end;
    assert end + rest == "</" + n.name + n.endSpace + ">" + rest;
  }

  /** An element scans as its children do one level deeper. */
  lemma ScansElement(n: Node, rest: string, closeTag: string, depth: nat)
    requires n.Element? && WellFormedNode(n) && closeTag == "</" + n.name + n.endSpace + ">" + rest
    requires depth < MAX_ELEMENT_DEPTH ==>
               (TooDeep(Print(n.children) + closeTag, depth + 1)
                <==> depth + 1 + Height(n.children) > MAX_ELEMENT_DEPTH || TooDeep(closeTag, depth + 1))
    requires depth <= MAX_ELEMENT_DEPTH
    ensures TooDeep(PrintNode(n) + rest, depth)
       <==> depth + NodeHeight(n) > MAX_ELEMENT_DEPTH || TooDeep(rest, depth)
  {
    ElementText(n, rest);
    ScansStartTag(n.name, n.attributes, n.space, false, Print(n.children) + closeTag, depth);
    ScansCloseTag(n.name, n.endSpace, rest, depth + 1);
  }

  lemma {:induction false} ScansNode(n: Node, rest: string, depth: nat)
    requires WellFormedNode(n) && depth <= MAX_ELEMENT_DEPTH
    ensures TooDeep(PrintNode(n) + rest, depth)
       <==> depth + NodeHeight(n) > MAX_ELEMENT_DEPTH || TooDeep(rest, depth)
    decreases n
  {
    match n
    case Text(text) =>
      SkipsText(text, rest, depth);
    case Empty(name, attributes, space) =>
      ScansStartTag(name, attributes, space, true, rest, depth);
    case Element(name, attributes, space, children, endSpace) =>
      var closeTag := "</" + name + endSpace + ">" + rest;
      if depth < MAX_ELEMENT_DEPTH {
        ScansContent(children, closeTag, depth + 1);
      }
      ScansElement(n, rest, closeTag, depth);
    case _ =>
      ScansMarkup(n, rest, depth);
  }

  lemma ScansCloseTag(name: string, endSpace: string, rest: string, depth: nat)
    requires IsName(name) && AllSpace(endSpace) && depth > 0
    ensures TooDeep("</" + name + endSpace + ">" + rest, depth) == TooDeep(rest, depth - 1)
  {
    var s := "</" + name + endSpace + ">" + rest;
    assert s[1] == '/';
    assert s[1..] == "/" + name + endSpace + ">" + rest;
    CloseTagEndsAtItsBracket(name, endSpace, rest);
  }

  /** Reading printed content trips the bound exactly when the content nests past it, and
      otherwise leaves the depth as it found it. */
  lemma {:induction false} ScansContent(c: Content, rest: string, depth: nat)
    requires WellFormed(c) && depth <= MAX_ELEMENT_DEPTH
    ensures TooDeep(Print(c) + rest, depth)
       <==> depth + Height(c) > MAX_ELEMENT_DEPTH || TooDeep(rest, depth)
    decreases c
  {
    match c
    case Nil =>
      assert Print(c) + rest == rest;
    case Cons(head, tail) =>
      assert Print(c) + rest == PrintNode(head) + (Print(tail) + rest);
      ScansNode(head, Print(tail) + rest, depth);
      ScansContent(tail, rest, depth);
  }

  /** A document type declaration is a start tag to the scan: one level that never closes. */
  lemma ScansDoctype(d: Doctype, rest: string)
    requires IsLead(d.name) && WellFormedQuoted(d.literals) && AllSpace(d.space)
    ensures TooDeep(PrintDoctype(Some(d)) + rest, 0) == TooDeep(rest, 1)
  {
    hide TooDeep, ScanTagFrom;
    var tail := PrintQuoted(d.literals) + (d.space + TagEnd(false) + rest);
    var inside := "DOCTYPE" + d.name + tail;
    assert PrintDoctype(Some(d)) + rest == "<!" + inside;
    assert inside == ("DOCTYPE" + d.name) + tail && inside[0] == 'D';
    ScansTagBody("DOCTYPE" + d.name, d.literals, d.space, false, rest);
    PreviousIsForgotten("DOCTYPE" + d.name, tail);
    DeclarationOpensALevel(inside, rest);
  }

  lemma DeclarationOpensALevel(inside: string, rest: string)
    requires inside != [] && inside[0] == 'D' && ScanTagFrom(inside, Some('!')) == Tag(false, rest)
    ensures TooDeep("<!" + inside, 0) == TooDeep(rest, 1)
  {
    var s := "<!" + inside;
    assert s[0] == '<' && s[1] == '!' && s[2] == 'D';
    assert !("<!--" <= s) && !("<![CDATA[" <= s) && !("<?" <= s) && !("</" <= s);
    assert s[1..] == "!" + inside && s[1..][1..] == inside;
    assert ScanTagFrom(s[1..], None) == ScanTagFrom(inside, Some('!'));
  }

  /** What precedes a tag's first character does not matter to the scan. */
  lemma PreviousIsForgotten(lead: string, rest: string)
    requires lead != [] && Plain(lead)
    ensures ScanTagFrom(lead + rest, Some('!')) == ScanTagFrom(lead + rest, None)
  {
    SkipsPlain(lead, rest, Some('!'));
    SkipsPlain(lead, rest, None);
  }

  /** The bound refuses a well-formed document exactly when more than a hundred elements are
      open at once, a document type declaration counting as one of them. */
  lemma RefusesExactlyTooDeepDocuments(d: Document)
    requires WellFormedDocument(d)
    ensures TooDeep(PrintDocument(d), 0)
       <==> Height(d.body) + (if d.doctype.Some? then 1 else 0) > 100
  {
    var tail := PrintDoctype(d.doctype) + Print(d.body);
    assert PrintDocument(d) == Print(d.prolog) + tail;
    ScansContent(d.prolog, tail, 0);
    var depth := if d.doctype.Some? then 1 else 0;
    assert Print(d.body) == Print(d.body) + [];
    ScansContent(d.body, [], depth);
    if d.doctype.Some? {
      ScansDoctype(d.doctype.value, Print(d.body));
    } else {
      assert tail == Print(d.body);
    }
  }
}
