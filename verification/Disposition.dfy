/**
 The header a download is named by (`src/domain/mod.rs`): sections 3.2 of RFC 5987
 and 4.3 of RFC 6266.

 A name is the bytes of its UTF-8 text, one character each, so a character of the
 text is a byte that does not continue another, with the bytes that continue it.
 */
module Disposition {
  import opened Wrappers
  import opened Decimal

  type ByteString = s: string | forall i :: 0 <= i < |s| ==> s[i] as int < 256

  /// The name a stored attachment was uploaded under
  /// -----------------------------------------------

  function HyphenAt(s: string): (i: nat)
    ensures i <= |s| && (i < |s| ==> s[i] == '-') && forall k :: 0 <= k < i ==> s[k] != '-'
  {
    if s == [] || s[0] == '-' then 0 else 1 + HyphenAt(s[1..])
  }

  function OriginalName(filename: ByteString): ByteString {
    var i := HyphenAt(filename);
    if i < |filename| && i > 0 && AllDigits(filename[..i]) then filename[i + 1..] else filename
  }

  /** A digits-hyphen prefix comes off, whatever the name behind it; any other name stands. */
  lemma OriginalNameUndoesThePrefix(filename: ByteString)
    ensures forall digits, name: ByteString :: digits != [] && AllDigits(digits) && filename == digits + "-" + name ==>
              OriginalName(filename) == name
    ensures (forall digits, name: ByteString {:trigger digits + "-" + name} ::
               digits != [] && AllDigits(digits) ==> filename != digits + "-" + name)
            ==> OriginalName(filename) == filename
  {
    var i := HyphenAt(filename);
    forall digits, name: ByteString | digits != [] && AllDigits(digits) && filename == digits + "-" + name
      ensures OriginalName(filename) == name
    {
      assert filename[|digits|] == '-';
      assert forall k :: 0 <= k < |digits| ==> filename[k] == digits[k] != '-';
      assert i == |digits| && filename[..i] == digits && filename[i + 1..] == name;
    }
    if i < |filename| {
      assert filename == filename[..i] + "-" + filename[i + 1..];
    }
  }

  /// The plain form
  /// --------------

  predicate Graphic(c: char) { '!' <= c <= '~' }

  predicate Continues(c: char) { 0x80 <= c as int < 0xC0 }

  function Plain(name: ByteString): string {
    if name == [] then []
    else
      var first := if Continues(name[0]) then []
                   else if Graphic(name[0]) && name[0] != '"' && name[0] != '\\' then [name[0]]
                   else "_";
      first + Plain(name[1..])
  }

  /** The plain form holds no quote, backslash, blank or control character, so it cannot leave its quotes. */
  lemma {:induction false} PlainIsQuotable(name: ByteString)
    ensures |Plain(name)| <= |name|
    ensures forall c :: c in Plain(name) ==> Graphic(c) && c != '"' && c != '\\'
  {
    if name != [] {
      PlainIsQuotable(name[1..]);
    }
  }

  /** How many characters of the text begin before the byte at `i`. */
  function Begun(name: ByteString, i: nat): nat
    requires i <= |name|
  {
    if i == 0 then 0 else Begun(name, i - 1) + if 0x80 <= name[i - 1] as int < 0xC0 then 0 else 1
  }

  lemma {:induction false} BegunFromSecond(name: ByteString, i: nat)
    requires 0 < i <= |name|
    ensures Begun(name, i) == (if 0x80 <= name[0] as int < 0xC0 then 0 else 1) + Begun(name[1..], i - 1)
  {
    if i > 1 {
      BegunFromSecond(name, i - 1);
    } else {
      assert Begun(name, 1) == Begun(name, 0) + if 0x80 <= name[0] as int < 0xC0 then 0 else 1;
    }
  }

  /** The plain form has one character for each of the text: itself if it is graphic and neither a quote
      nor a backslash, and an underscore otherwise. */
  lemma {:induction false} PlainIsSpelled(name: ByteString, i: nat)
    requires i < |name| && !(0x80 <= name[i] as int < 0xC0)
    ensures |Plain(name)| == Begun(name, |name|) && Begun(name, i) < |Plain(name)|
    ensures Plain(name)[Begun(name, i)]
         == if 0x21 <= name[i] as int <= 0x7E && name[i] as int != 0x22 && name[i] as int != 0x5C then name[i] else '_'
  {
    PlainLength(name);
    BegunFromSecond(name, |name|);
    if i > 0 {
      PlainIsSpelled(name[1..], i - 1);
      BegunFromSecond(name, i);
    } else {
      PlainLength(name[1..]);
    }
  }

  lemma {:induction false} PlainLength(name: ByteString)
    ensures |Plain(name)| == Begun(name, |name|)
  {
    if name != [] {
      PlainLength(name[1..]);
      BegunFromSecond(name, |name|);
    }
  }

  /// The percent-encoded form
  /// ------------------------

  predicate Allowed(c: char) {
    || '0' <= c <= '9' || 'A' <= c <= 'Z' || 'a' <= c <= 'z'
    || c in "!#$&+-.^_`|~"
  }

  /** The characters that need no encoding: the graphic ones but for those a parameter value may not hold
      and the three that the extended form uses itself. */
  lemma AllowedAreAttributeCharacters(c: char)
    ensures Allowed(c) <==> 0x21 <= c as int <= 0x7E && c !in "\"(),/:;<=>?@[\\]{}" && c !in "*'%"
  {
  }

  function HexDigit(d: nat): char
    requires d < 16
  {
    if d < 10 then ('0' as int + d) as char else ('A' as int + d - 10) as char
  }

  function HexValue(c: char): Option<nat> {
    if '0' <= c <= '9' then Some(c as int - '0' as int)
    else if 'A' <= c <= 'F' then Some(c as int - 'A' as int + 10)
    else if 'a' <= c <= 'f' then Some(c as int - 'a' as int + 10)
    else None
  }

  function EncodedByte(c: char): string
    requires c as int < 256
  {
    if Allowed(c) then [c] else ['%', HexDigit(c as int / 16), HexDigit(c as int % 16)]
  }

  /** A byte that needs encoding is a percent sign and its two digits in upper-case hexadecimal. */
  lemma TripletsAreUpperCase(c: char)
    requires c as int < 256 && !Allowed(c)
    ensures var e := EncodedByte(c);
            && |e| == 3 && e[0] == '%' && e[1] in "0123456789ABCDEF" && e[2] in "0123456789ABCDEF"
            && HexValue(e[1]).Some? && HexValue(e[2]).Some? && HexValue(e[1]).value * 16 + HexValue(e[2]).value == c as int
  {
    HexDigitIs(c as int / 16);
    HexDigitIs(c as int % 16);
  }

  lemma HexDigitIs(d: nat)
    requires d < 16
    ensures HexDigit(d) in "0123456789ABCDEF" && HexValue(HexDigit(d)) == Some(d)
  {
    assert d < 10 ==> HexDigit(d) in "0123456789";
    assert forall c :: c in "0123456789" ==> c in "0123456789ABCDEF";
  }

  function Encoded(name: ByteString): string {
    if name == [] then [] else EncodedByte(name[0]) + Encoded(name[1..])
  }

  /** The loop over the bytes, appending to the header value. */
  method PercentEncode(name: ByteString) returns (encoded: string)
    ensures encoded == Encoded(name)
  {
    encoded := "";
    var i := 0;
    while i < |name|
      invariant i <= |name| && encoded + Encoded(name[i..]) == Encoded(name)
    {
      assert name[i..][1..] == name[i + 1..];
      assert encoded + (EncodedByte(name[i]) + Encoded(name[i + 1..])) == encoded + EncodedByte(name[i]) + Encoded(name[i + 1..]);
      if Allowed(name[i]) {
        encoded := encoded + [name[i]];
      } else {
        encoded := encoded + ['%', HexDigit(name[i] as int / 16), HexDigit(name[i] as int % 16)];
      }
      i := i + 1;
    }
  }

  /** How a client reads the value: every triplet is a byte, every other character stands for itself. */
  function PercentDecoded(s: string): Option<string> {
    if s == [] then Some([])
    else if s[0] != '%' then
      match PercentDecoded(s[1..])
      case Some(rest) => Some([s[0]] + rest)
      case None => None
    else if |s| < 3 || HexValue(s[1]).None? || HexValue(s[2]).None? then None
    else
      match PercentDecoded(s[3..])
      case Some(rest) => Some([(HexValue(s[1]).value * 16 + HexValue(s[2]).value) as char] + rest)
      case None => None
  }

  lemma {:induction false} DecodesWhatItEncodes(name: ByteString)
    ensures PercentDecoded(Encoded(name)) == Some(name)
  {
    if name != [] {
      var rest := Encoded(name[1..]);
      DecodesWhatItEncodes(name[1..]);
      assert name == [name[0]] + name[1..];
      if Allowed(name[0]) {
        assert ([name[0]] + rest)[1..] == rest;
      } else {
        var triplet := EncodedByte(name[0]);
        assert (triplet + rest)[3..] == rest;
        var n := name[0] as int;
        assert HexValue(HexDigit(n / 16)) == Some(n / 16) && HexValue(HexDigit(n % 16)) == Some(n % 16);
      }
    }
  }

  predicate AllAllowed(name: string) { forall i :: 0 <= i < |name| ==> Allowed(name[i]) }

  lemma {:induction false} EncodedLength(name: ByteString)
    ensures |Encoded(name)| >= |name|
    ensures |Encoded(name)| == |name| <==> AllAllowed(name)
    ensures AllAllowed(name) ==> Encoded(name) == name && Plain(name) == name
  {
    if name != [] {
      EncodedLength(name[1..]);
      assert name == [name[0]] + name[1..];
    }
  }

  /** Every character of the encoded form may stand in the value of an extended parameter. */
  lemma {:induction false} EncodedIsExtended(name: ByteString)
    ensures forall c :: c in Encoded(name) ==> Allowed(c) || c == '%'
  {
    if name != [] {
      EncodedIsExtended(name[1..]);
    }
  }

  /** The two forms agree exactly for names made of allowed characters, and then both are the name. */
  lemma FormsAgreeExactly(name: ByteString)
    ensures Plain(name) == Encoded(name) <==> AllAllowed(name)
    ensures AllAllowed(name) ==> Plain(name) == name
  {
    PlainIsQuotable(name);
    EncodedLength(name);
  }

  /// The header
  /// ----------

  const START := "attachment; filename=\""
  const EXTENDED := "; filename*=UTF-8''"

  function ContentDisposition(filename: ByteString): string {
    var name := OriginalName(filename);
    var plain, encoded := Plain(name), Encoded(name);
    if plain == encoded then START + plain + "\""
    else START + plain + "\"" + EXTENDED + encoded
  }

  function QuoteAt(s: string): (i: nat)
    ensures i <= |s| && (i < |s| ==> s[i] == '"') && forall k :: 0 <= k < i ==> s[k] != '"'
  {
    if s == [] || s[0] == '"' then 0 else 1 + QuoteAt(s[1..])
  }

  /** How a client reads the header: the extended name where there is one, the quoted one otherwise. */
  function ReadName(header: string): Option<string> {
    if !(START <= header) then None
    else
      var value := header[|START|..];
      var end := QuoteAt(value);
      if end == |value| then None
      else
        var rest := value[end + 1..];
        if rest == [] then Some(value[..end])
        else if EXTENDED <= rest then PercentDecoded(rest[|EXTENDED|..])
        else None
  }

  lemma QuotedPart(plain: string, rest: string)
    requires forall c :: c in plain ==> c != '"'
    ensures QuoteAt(plain + "\"" + rest) == |plain|
    ensures (plain + "\"" + rest)[..|plain|] == plain && (plain + "\"" + rest)[|plain| + 1..] == rest
  {
    var value := plain + "\"" + rest;
    assert value[|plain|] == '"';
    assert forall k :: 0 <= k < |plain| ==> value[k] == plain[k] && plain[k] in plain;
  }

  lemma ReadsAfterStart(plain: string, rest: string)
    requires forall c :: c in plain ==> c != '"'
    ensures ReadName(START + (plain + "\"" + rest))
         == if rest == [] then Some(plain) else if EXTENDED <= rest then PercentDecoded(rest[|EXTENDED|..]) else None
  {
    var value := plain + "\"" + rest;
    assert (START + value)[|START|..] == value;
    QuotedPart(plain, rest);
  }

  /** The header loses nothing: whatever the name, a client that reads the header has it back. */
  lemma HeaderKeepsTheName(filename: ByteString)
    ensures ReadName(ContentDisposition(filename)) == Some(OriginalName(filename))
  {
    var name := OriginalName(filename);
    var plain, encoded := Plain(name), Encoded(name);
    PlainIsQuotable(name);
    FormsAgreeExactly(name);
    if plain == encoded {
      assert START + plain + "\"" == START + (plain + "\"" + []);
      ReadsAfterStart(plain, []);
    } else {
      var rest := EXTENDED + encoded;
      assert START + plain + "\"" + EXTENDED + encoded == START + (plain + "\"" + rest);
      assert rest[|EXTENDED|..] == encoded && rest != [];
      ReadsAfterStart(plain, rest);
      DecodesWhatItEncodes(name);
    }
  }

  /** The extended name is added exactly when the plain one cannot say the whole name. */
  lemma ExtendedOnlyWhenNeeded(filename: ByteString)
    ensures var name, header := OriginalName(filename), ContentDisposition(filename);
            if forall c :: c in name ==> Allowed(c) then header == START + name + "\""
            else header == START + Plain(name) + "\"" + EXTENDED + Encoded(name)
  {
    hide Plain, Encoded, Allowed;
    var name := OriginalName(filename);
    FormsAgreeExactly(name);
    assert AllAllowed(name) <==> forall c :: c in name ==> Allowed(c);
  }
}
