/**
 The nesting bound of the JUnit importer (`src/domain/import.rs`).

 The scanner works on bytes, so a document is a `string` with one character per
 byte. `TooDeep`, `AfterFirst` and `ScanTagFrom` describe the three loops on the
 unread rest of the document; the methods walk indices as the source does. What
 the scan says of documents is in `XmlDocument` and `XmlDeclaration`.
 */
module XmlDepth {
  import opened Wrappers

  const MAX_ELEMENT_DEPTH: nat := 100

  /// The scan on the unread rest
  /// ---------------------------

  function AfterFirst(s: string, delimiter: string): (rest: string)
    ensures |rest| <= |s|
  {
    if s == [] then []
    else if delimiter <= s then s[|delimiter|..]
    else AfterFirst(s[1..], delimiter)
  }

  function AfterQuote(s: string, quote: char): (rest: string)
    ensures |rest| <= |s|
  {
    if s == [] then []
    else if s[0] == quote then s[1..]
    else AfterQuote(s[1..], quote)
  }

  datatype Tag = Tag(selfClosing: bool, rest: string)

  function ScanTagFrom(s: string, previous: Option<char>): (tag: Tag)
    ensures |tag.rest| <= |s|
    decreases |s|
  {
    if s == [] then Tag(false, [])
    else if s[0] == '>' then Tag(previous == Some('/'), s[1..])
    else if IsQuote(s[0]) then ScanTagFrom(AfterQuote(s[1..], s[0]), Some(s[0]))
    else ScanTagFrom(s[1..], Some(s[0]))
  }

  predicate IsQuote(c: char) { c == '"' || c == '\'' }

  predicate TooDeep(s: string, depth: nat)
    decreases |s|
  {
    if s == [] then false
    else if s[0] != '<' then TooDeep(s[1..], depth)
    else if "<!--" <= s then TooDeep(AfterFirst(s[4..], "-->"), depth)
    else if "<![CDATA[" <= s then TooDeep(AfterFirst(s[9..], "]]>"), depth)
    else if "<?" <= s then TooDeep(AfterFirst(s[2..], "?>"), depth)
    else if "</" <= s then TooDeep(AfterFirst(s[1..], ">"), if depth == 0 then 0 else depth - 1)
    else
      var tag := ScanTagFrom(s[1..], None);
      if tag.selfClosing then TooDeep(tag.rest, depth)
      else depth + 1 > MAX_ELEMENT_DEPTH || TooDeep(tag.rest, depth + 1)
  }

  lemma ScanTagStep(bytes: string, cursor: nat, previous: Option<char>)
    requires cursor < |bytes|
    ensures var c, rest := bytes[cursor], bytes[cursor + 1..];
            ScanTagFrom(bytes[cursor..], previous)
            == if c == '>' then Tag(previous == Some('/'), rest)
               else if IsQuote(c) then ScanTagFrom(AfterQuote(rest, c), Some(c))
               else ScanTagFrom(rest, Some(c))
  {
    assert bytes[cursor..][1..] == bytes[cursor + 1..];
  }

  lemma AfterQuoteStep(bytes: string, cursor: nat, quote: char)
    requires cursor < |bytes|
    ensures AfterQuote(bytes[cursor..], quote)
         == if bytes[cursor] == quote then bytes[cursor + 1..] else AfterQuote(bytes[cursor + 1..], quote)
  {
    assert bytes[cursor..][1..] == bytes[cursor + 1..];
  }

  lemma NothingLeft(quote: char, previous: Option<char>)
    ensures AfterQuote([], quote) == [] && ScanTagFrom([], previous) == Tag(false, [])
  {
  }

  /// The loops of the source
  /// -----------------------

  method SkipPast(bytes: string, from: nat, delimiter: string) returns (index: nat)
    requires from <= |bytes|
    ensures from <= index <= |bytes|
    ensures bytes[index..] == AfterFirst(bytes[from..], delimiter)
  {
    var cursor := from;
    while cursor < |bytes|
      invariant from <= cursor <= |bytes|
      invariant AfterFirst(bytes[from..], delimiter) == AfterFirst(bytes[cursor..], delimiter)
    {
      if delimiter <= bytes[cursor..] {
        assert bytes[cursor + |delimiter|..] == bytes[cursor..][|delimiter|..];
        return cursor + |delimiter|;
      }
      assert bytes[cursor..][1..] == bytes[cursor + 1..];
      cursor := cursor + 1;
    }
    return |bytes|;
  }

  /** The inner loop: the cursor stops on the closing quote, or at the end. */
  method FindQuote(bytes: string, from: nat, quote: char) returns (cursor: nat)
    requires from <= |bytes|
    ensures from <= cursor <= |bytes|
    ensures AfterQuote(bytes[from..], quote) == Unread(bytes, cursor + 1)
  {
    hide AfterQuote;
    cursor := from;
    while cursor < |bytes| && bytes[cursor] != quote
      invariant from <= cursor <= |bytes|
      invariant AfterQuote(bytes[from..], quote) == AfterQuote(bytes[cursor..], quote)
    {
      AfterQuoteStep(bytes, cursor, quote);
      cursor := cursor + 1;
    }
    if cursor < |bytes| {
      AfterQuoteStep(bytes, cursor, quote);
    }
    NothingLeft(quote, None);
  }

  /** The cursor may step one past the end when a quote is never closed, as in the source. */
  method ScanTag(bytes: string, from: nat) returns (selfClosing: bool, next: nat)
    requires from <= |bytes|
    ensures from <= next <= |bytes|
    ensures Tag(selfClosing, bytes[next..]) == ScanTagFrom(bytes[from..], None)
  {
    hide ScanTagFrom, AfterQuote;
    var cursor := from;
    var previous: Option<char> := None;
    while cursor < |bytes|
      invariant from <= cursor <= |bytes| + 1
      invariant ScanTagFrom(bytes[from..], None) == ScanTagFrom(Unread(bytes, cursor), previous)
    {
      ScanTagStep(bytes, cursor, previous);
      if bytes[cursor] == '>' {
        return previous == Some('/'), cursor + 1;
      }
      previous := Some(bytes[cursor]);
      if IsQuote(bytes[cursor]) {
        cursor := FindQuote(bytes, cursor + 1, bytes[cursor]);
      }
      cursor := cursor + 1;
    }
    NothingLeft('>', previous);
    return false, |bytes|;
  }

  /** What is left to read; nothing once the cursor has stepped past the end. */
  function Unread(bytes: string, cursor: nat): string {
    if cursor <= |bytes| then bytes[cursor..] else []
  }

  method NestsTooDeeply(bytes: string) returns (tooDeep: bool)
    ensures tooDeep == TooDeep(bytes, 0)
  {
    hide AfterFirst, ScanTagFrom;
    var depth: nat := 0;
    var index := 0;
    assert bytes[0..] == bytes;
    while index < |bytes|
      invariant index <= |bytes|
      invariant depth <= MAX_ELEMENT_DEPTH
      invariant TooDeep(bytes, 0) == TooDeep(bytes[index..], depth)
      decreases |bytes| - index
    {
      if bytes[index] != '<' {
        assert bytes[index..][1..] == bytes[index + 1..];
        index := index + 1;
      } else if "<!--" <= bytes[index..] {
        assert bytes[index..][4..] == bytes[index + 4..];
        index := SkipPast(bytes, index + 4, "-->");
      } else if "<![CDATA[" <= bytes[index..] {
        assert bytes[index..][9..] == bytes[index + 9..];
        index := SkipPast(bytes, index + 9, "]]>");
      } else if index + 1 < |bytes| && bytes[index + 1] == '?' {
        assert "<?" <= bytes[index..] && bytes[index..][2..] == bytes[index + 2..];
        index := SkipPast(bytes, index + 2, "?>");
      } else if index + 1 < |bytes| && bytes[index + 1] == '/' {
        assert "</" <= bytes[index..] && bytes[index..][1..] == bytes[index + 1..];
        depth := if depth == 0 then 0 else depth - 1;
        index := SkipPast(bytes, index + 1, ">");
      } else {
        assert !("<?" <= bytes[index..]) && !("</" <= bytes[index..]);
        assert bytes[index..][1..] == bytes[index + 1..];
        var selfClosing, next := ScanTag(bytes, index + 1);
        if !selfClosing {
          depth := depth + 1;
          if depth > MAX_ELEMENT_DEPTH {
            return true;
          }
        }
        index := next;
      }
    }
    return false;
  }
}
