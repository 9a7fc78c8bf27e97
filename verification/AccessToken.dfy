/**
 Access tokens: minting, verification and the tag comparison of `src/auth/token.rs`.

 HMAC-SHA256 and the JSON of the claims are functions of a `Crypto` value; the
 claims' random identifier is a parameter.
 */
module AccessToken {
  import opened Wrappers
  import opened Base64Url
  import Accounts

  type u64 = Accounts.u64

  datatype Claims = Claims(subject: string, issuedAt: u64, expiresAt: u64, tokenId: string, systemAdmin: bool)

  datatype TokenError = Malformed | BadSignature | Expired

  /** What the libraries do: serialize and parse the claims, read a header's algorithm, and tag a message. */
  datatype Crypto = Crypto(
    serialize: Claims -> seq<byte>,
    parse: seq<byte> -> Option<Claims>,
    algorithm: seq<byte> -> Option<string>,
    hmac: (seq<byte>, string) -> seq<byte>)

  const HEADER := "{\"alg\":\"HS256\",\"typ\":\"JWT\"}"

  /** A string of single-byte characters as its bytes. */
  function Bytes(s: string): seq<byte> { seq(|s|, i requires 0 <= i < |s| => s[i] as int % 256) }

  function HeaderBytes(): seq<byte> { Bytes(HEADER) }

  /** The libraries read back what they write. */
  ghost predicate Faithful(c: Crypto) {
    && c.algorithm(HeaderBytes()) == Some("HS256")
    && forall claims :: c.parse(c.serialize(claims)) == Some(claims)
  }

  /// Segments
  /// --------

  predicate NoDot(s: string) { forall i :: 0 <= i < |s| ==> s[i] != '.' }

  function DotAt(s: string): (d: nat)
    ensures d <= |s| && NoDot(s[..d]) && (d < |s| ==> s[d] == '.')
  {
    if s == [] || s[0] == '.' then 0 else 1 + DotAt(s[1..])
  }

  function Segments(s: string): seq<string> {
    var d := DotAt(s);
    if d == |s| then [s] else [s[..d]] + Segments(s[d + 1..])
  }

  lemma {:induction false} DotAfter(h: string, rest: string)
    requires NoDot(h)
    ensures DotAt(h) == |h| && DotAt(h + "." + rest) == |h|
  {
    if h != [] {
      assert (h + "." + rest)[1..] == h[1..] + "." + rest;
      DotAfter(h[1..], rest);
    }
  }

  lemma SegmentsOfJoined(h: string, rest: string)
    requires NoDot(h)
    ensures Segments(h) == [h] && Segments(h + "." + rest) == [h] + Segments(rest)
  {
    DotAfter(h, rest);
    assert (h + "." + rest)[..|h|] == h && (h + "." + rest)[|h| + 1..] == rest;
  }

  function Rejoined(segments: seq<string>): string {
    if segments == [] then []
    else if |segments| == 1 then segments[0]
    else segments[0] + ("." + Rejoined(segments[1..]))
  }

  lemma FirstSegment(s: string)
    ensures var d := DotAt(s);
            && Segments(s) == (if d == |s| then [s] else [s[..d]] + Segments(s[d + 1..]))
            && Segments(s) != [] && NoDot(s[..d]) && Rejoined([s]) == s
  {
    hide DotAt, NoDot, Rejoined;
    RejoinedOne(s);
  }

  lemma RejoinedOne(s: string)
    ensures Rejoined([s]) == s
  {
    hide DotAt, Segments, NoDot;
  }

  lemma RejoinedFirst(first: string, rest: seq<string>)
    requires rest != []
    ensures Rejoined([first] + rest) == first + ("." + Rejoined(rest))
  {
    assert ([first] + rest)[1..] == rest;
  }

  lemma {:induction false} SegmentsRejoin(s: string)
    ensures Rejoined(Segments(s)) == s && forall i :: 0 <= i < |Segments(s)| ==> NoDot(Segments(s)[i])
  {
    hide DotAt, Segments, Rejoined, NoDot;
    var d := DotAt(s);
    FirstSegment(s);
    if d < |s| {
      SegmentsRejoin(s[d + 1..]);
      FirstSegment(s[d + 1..]);
      RejoinedFirst(s[..d], Segments(s[d + 1..]));
      assert s == s[..d] + ("." + s[d + 1..]);
    } else {
      assert s[..d] == s;
    }
  }

  lemma RejoinThree(h: string, p: string, g: string)
    ensures Rejoined([h, p, g]) == h + "." + p + "." + g
  {
    assert [h, p, g][1..] == [p, g] && [p, g][1..] == [g];
    assert Rejoined([p, g]) == p + ("." + g);
    assert h + ("." + (p + ("." + g))) == h + "." + p + "." + g;
  }

  /// Minting and verifying
  /// ---------------------

  function Sign(c: Crypto, secret: seq<byte>, message: string): string { Encode(c.hmac(secret, message)) }

  function SigningInput(c: Crypto, claims: Claims): string {
    Encode(HeaderBytes()) + "." + Encode(c.serialize(claims))
  }

  function Mint(c: Crypto, secret: seq<byte>, subject: string, systemAdmin: bool, ttl: u64, now: u64, tokenId: string): string {
    var claims := Claims(subject, now, Accounts.SaturatingAdd(now, ttl), tokenId, systemAdmin);
    SigningInput(c, claims) + "." + Sign(c, secret, SigningInput(c, claims))
  }

  function Verify(c: Crypto, secret: seq<byte>, token: string, now: u64): Result<Claims, TokenError> {
    var segments := Segments(token);
    if |segments| != 3 then Err(Malformed)
    else
      match Decode(segments[0])
      case None => Err(Malformed)
      case Some(header) =>
        if c.algorithm(header) != Some("HS256") then Err(Malformed)
        else if Sign(c, secret, segments[0] + "." + segments[1]) != segments[2] then Err(BadSignature)
        else
          match Decode(segments[1])
          case None => Err(Malformed)
          case Some(payload) =>
            match c.parse(payload)
            case None => Err(Malformed)
            case Some(claims) => if claims.expiresAt <= now then Err(Expired) else Ok(claims)
  }

  lemma SymbolsHaveNoDot(s: string)
    requires AllSymbols(s)
    ensures NoDot(s)
  {
  }

  lemma SplitsInThree(h: string, p: string, g: string)
    requires NoDot(h) && NoDot(p) && NoDot(g)
    ensures Segments(h + "." + p + "." + g) == [h, p, g]
  {
    hide Segments, NoDot;
    assert h + "." + p + "." + g == h + "." + (p + "." + g);
    assert [h] + ([p] + [g]) == [h, p, g];
    SegmentsOfJoined(h, p + "." + g);
    SegmentsOfJoined(p, g);
    SegmentsOfJoined(g, "");
  }

  /** A minted token gives its claims back at every instant strictly before `now + ttl`, saturated,
      and is expired from that instant on. */
  lemma MintedTokenVerifies(c: Crypto, secret: seq<byte>, subject: string, systemAdmin: bool, ttl: u64, now: u64,
                            tokenId: string, at: u64)
    requires Faithful(c)
    ensures var until := Accounts.SaturatingAdd(now, ttl);
            Verify(c, secret, Mint(c, secret, subject, systemAdmin, ttl, now, tokenId), at)
            == if at < until then Ok(Claims(subject, now, until, tokenId, systemAdmin)) else Err(Expired)
  {
    var claims := Claims(subject, now, Accounts.SaturatingAdd(now, ttl), tokenId, systemAdmin);
    MintedSegments(c, secret, claims);
    DecodesWhatItEncodes(HeaderBytes());
    DecodesWhatItEncodes(c.serialize(claims));
  }

  lemma MintedSegments(c: Crypto, secret: seq<byte>, claims: Claims)
    ensures var input := SigningInput(c, claims);
            Segments(input + "." + Sign(c, secret, input))
            == [Encode(HeaderBytes()), Encode(c.serialize(claims)), Sign(c, secret, input)]
  {
    var input := SigningInput(c, claims);
    SymbolsHaveNoDot(Encode(HeaderBytes()));
    SymbolsHaveNoDot(Encode(c.serialize(claims)));
    SymbolsHaveNoDot(Sign(c, secret, input));
    SplitsInThree(Encode(HeaderBytes()), Encode(c.serialize(claims)), Sign(c, secret, input));
  }

  /** Under another secret a minted token has a bad signature, unless the two secrets give the
      message the same tag. */
  lemma OtherSecretsRefuse(c: Crypto, secret: seq<byte>, other: seq<byte>, subject: string, systemAdmin: bool,
                           ttl: u64, now: u64, tokenId: string, at: u64)
    requires Faithful(c)
    ensures var claims := Claims(subject, now, Accounts.SaturatingAdd(now, ttl), tokenId, systemAdmin);
            var input := SigningInput(c, claims);
            Verify(c, other, Mint(c, secret, subject, systemAdmin, ttl, now, tokenId), at) == Err(BadSignature)
            <==> c.hmac(secret, input) != c.hmac(other, input)
  {
    var claims := Claims(subject, now, Accounts.SaturatingAdd(now, ttl), tokenId, systemAdmin);
    var input := SigningInput(c, claims);
    MintedSegments(c, secret, claims);
    DecodesWhatItEncodes(HeaderBytes());
    DecodesWhatItEncodes(c.hmac(secret, input));
    DecodesWhatItEncodes(c.hmac(other, input));
  }

  /** The token is the signed pair `header.payload` carrying these claims. */
  predicate Carries(c: Crypto, secret: seq<byte>, token: string, header: string, payload: string, claims: Claims) {
    && NoDot(header) && NoDot(payload)
    && token == header + "." + payload + "." + Sign(c, secret, header + "." + payload)
    && Decode(header).Some? && c.algorithm(Decode(header).value) == Some("HS256")
    && Decode(payload).Some? && c.parse(Decode(payload).value) == Some(claims)
  }

  /** Exactly the tokens of three segments whose tag is the tag of the first two, naming HS256 and
      carrying unexpired claims, are accepted. */
  lemma AcceptsExactlySignedTokens(c: Crypto, secret: seq<byte>, token: string, now: u64, claims: Claims)
    ensures Verify(c, secret, token, now) == Ok(claims)
       <==> claims.expiresAt > now && exists header, payload :: Carries(c, secret, token, header, payload, claims)
  {
    hide Segments, Decode, Sign;
    if Verify(c, secret, token, now) == Ok(claims) {
      ThreeSegments(token);
      var s := Segments(token);
      assert Carries(c, secret, token, s[0], s[1], claims);
    }
    forall header, payload | Carries(c, secret, token, header, payload, claims) && claims.expiresAt > now
      ensures Verify(c, secret, token, now) == Ok(claims)
    {
      SignHasNoDot(c, secret, header + "." + payload);
      SplitsInThree(header, payload, Sign(c, secret, header + "." + payload));
    }
  }

  /** Tokens of three segments that name HS256 and whose tag is not the tag of the first two have a
      bad signature; those signed and carrying claims that have run out are expired; whatever else is
      not accepted is malformed. */
  lemma RefusesExactly(c: Crypto, secret: seq<byte>, token: string, now: u64)
    ensures Verify(c, secret, token, now) == Err(BadSignature)
       <==> exists header, payload, tag ::
              && NoDot(header) && NoDot(payload) && NoDot(tag) && token == header + "." + payload + "." + tag
              && Decode(header).Some? && c.algorithm(Decode(header).value) == Some("HS256")
              && tag != Sign(c, secret, header + "." + payload)
    ensures Verify(c, secret, token, now) == Err(Expired)
       <==> exists header, payload, claims :: Carries(c, secret, token, header, payload, claims) && claims.expiresAt <= now
  {
    hide Segments, Decode, Sign;
    var s := Segments(token);
    if |s| == 3 {
      ThreeSegments(token);
      if Verify(c, secret, token, now) == Err(Expired) {
        assert Carries(c, secret, token, s[0], s[1], c.parse(Decode(s[1]).value).value);
      }
    }
    forall header, payload, tag | NoDot(header) && NoDot(payload) && NoDot(tag) && token == header + "." + payload + "." + tag
      ensures s == [header, payload, tag]
    {
      SplitsInThree(header, payload, tag);
    }
    forall header, payload, claims | Carries(c, secret, token, header, payload, claims)
      ensures s == [header, payload, Sign(c, secret, header + "." + payload)]
    {
      SignHasNoDot(c, secret, header + "." + payload);
    }
  }

  lemma SignHasNoDot(c: Crypto, secret: seq<byte>, message: string)
    ensures NoDot(Sign(c, secret, message))
  {
    SymbolsHaveNoDot(Sign(c, secret, message));
  }

  lemma ThreeSegments(s: string)
    requires |Segments(s)| == 3
    ensures var g := Segments(s); s == g[0] + "." + g[1] + "." + g[2] && NoDot(g[0]) && NoDot(g[1]) && NoDot(g[2])
  {
    var g := Segments(s);
    SegmentsRejoin(s);
    RejoinThree(g[0], g[1], g[2]);
    assert g == [g[0], g[1], g[2]];
  }

  /// Tag comparison
  /// --------------

  lemma NoDifference(difference: bv8, a: bv8, b: bv8)
    ensures difference | (a ^ b) == 0 <==> difference == 0 && a == b
  {
    assert a ^ b == 0 <==> a == b;
    assert difference | (a ^ b) == 0 <==> difference == 0 && a ^ b == 0;
  }

  /** Folding every byte in and testing once at the end is equality. */
  method ConstantTimeEq(left: seq<bv8>, right: seq<bv8>) returns (equal: bool)
    ensures equal <==> left == right
  {
    if |left| != |right| {
      return false;
    }
    var difference: bv8 := 0;
    var i := 0;
    while i < |left|
      invariant i <= |left|
      invariant difference == 0 <==> left[..i] == right[..i]
    {
      NoDifference(difference, left[i], right[i]);
      assert left[..i + 1] == left[..i] + [left[i]] && right[..i + 1] == right[..i] + [right[i]];
      difference := difference | (left[i] ^ right[i]);
      i := i + 1;
    }
    assert left[..i] == left && right[..i] == right;
    return difference == 0;
  }
}
