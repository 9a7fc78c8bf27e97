/** Base64url without padding: section 5 of RFC 4648, decoded strictly. */
module Base64Url {
  import opened Wrappers

  type byte = x: int | 0 <= x < 256

  type sextet = x: int | 0 <= x < 64

  /// Six bits at a time
  /// ------------------

  function Quad(x: byte, y: byte, z: byte): (s: seq<sextet>)
    ensures |s| == 4
  {
    [x / 4, x % 4 * 16 + y / 16, y % 16 * 4 + z / 64, z % 64]
  }

  function Triple(p: sextet, q: sextet, r: sextet, s: sextet): (bytes: seq<byte>)
    ensures |bytes| == 3
  {
    [p * 4 + q / 16, q % 16 * 16 + r / 4, r % 4 * 64 + s]
  }

  /** Three bytes are four sextets; one or two left over are two or three. */
  function Split(bytes: seq<byte>): seq<sextet> {
    match |bytes|
    case 0 => []
    case 1 => Quad(bytes[0], 0, 0)[..2]
    case 2 => Quad(bytes[0], bytes[1], 0)[..3]
    case _ => Quad(bytes[0], bytes[1], bytes[2]) + Split(bytes[3..])
  }

  /** Refuses a lone last sextet, and left-over bits that are not zero. */
  function Join(s: seq<sextet>): Option<seq<byte>> {
    match |s|
    case 0 => Some([])
    case 1 => None
    case 2 => if s[1] % 16 == 0 then Some(Triple(s[0], s[1], 0, 0)[..1]) else None
    case 3 => if s[2] % 4 == 0 then Some(Triple(s[0], s[1], s[2], 0)[..2]) else None
    case _ =>
      match Join(s[4..])
      case None => None
      case Some(rest) => Some(Triple(s[0], s[1], s[2], s[3]) + rest)
  }

  lemma TripleOfQuad(x: byte, y: byte, z: byte)
    ensures var s := Quad(x, y, z); Triple(s[0], s[1], s[2], s[3]) == [x, y, z]
  {
    Parts(x % 4, y / 16, 16);
    Parts(y % 16, z / 64, 4);
  }

  lemma Parts(high: nat, low: nat, unit: nat)
    requires low < unit && unit in {4, 16, 64}
    ensures (high * unit + low) / unit == high && (high * unit + low) % unit == low
  {
  }

  lemma QuadOfTriple(p: sextet, q: sextet, r: sextet, s: sextet)
    ensures var t := Triple(p, q, r, s); Quad(t[0], t[1], t[2]) == [p, q, r, s]
  {
    Parts(p, q / 16, 4);
    Parts(q % 16, r / 4, 16);
    Parts(r % 4, s, 64);
  }

  lemma {:induction false} JoinsWhatItSplits(bytes: seq<byte>)
    ensures Join(Split(bytes)) == Some(bytes)
  {
    if |bytes| == 1 {
      TripleOfQuad(bytes[0], 0, 0);
      Parts(bytes[0] % 4, 0, 16);
      assert [bytes[0], 0, 0][..1] == bytes;
    } else if |bytes| == 2 {
      TripleOfQuad(bytes[0], bytes[1], 0);
      Parts(bytes[1] % 16, 0, 4);
      assert [bytes[0], bytes[1], 0][..2] == bytes;
    } else if |bytes| >= 3 {
      TripleOfQuad(bytes[0], bytes[1], bytes[2]);
      assert Split(bytes)[4..] == Split(bytes[3..]);
      JoinsWhatItSplits(bytes[3..]);
      assert bytes == [bytes[0], bytes[1], bytes[2]] + bytes[3..];
    }
  }

  lemma {:induction false} SplitsWhatItJoins(s: seq<sextet>)
    requires Join(s).Some?
    ensures Split(Join(s).value) == s
  {
    if |s| == 2 {
      QuadOfTriple(s[0], s[1], 0, 0);
    } else if |s| == 3 {
      QuadOfTriple(s[0], s[1], s[2], 0);
    } else if |s| >= 4 {
      QuadOfTriple(s[0], s[1], s[2], s[3]);
      SplitsWhatItJoins(s[4..]);
      assert Join(s).value[3..] == Join(s[4..]).value;
      assert s == [s[0], s[1], s[2], s[3]] + s[4..];
    }
  }

  /// The alphabet
  /// ------------

  predicate IsSymbol(c: char) {
    'A' <= c <= 'Z' || 'a' <= c <= 'z' || '0' <= c <= '9' || c == '-' || c == '_'
  }

  function Symbol(v: sextet): (c: char)
    ensures IsSymbol(c) && SymbolValue(c) == v
  {
    if v < 26 then ('A' as int + v) as char
    else if v < 52 then ('a' as int + v - 26) as char
    else if v < 62 then ('0' as int + v - 52) as char
    else if v == 62 then '-'
    else '_'
  }

  function SymbolValue(c: char): sextet
    requires IsSymbol(c)
  {
    if 'A' <= c <= 'Z' then c as int - 'A' as int
    else if 'a' <= c <= 'z' then c as int - 'a' as int + 26
    else if '0' <= c <= '9' then c as int - '0' as int + 52
    else if c == '-' then 62
    else 63
  }

  predicate AllSymbols(s: string) { forall i :: 0 <= i < |s| ==> IsSymbol(s[i]) }

  function Spell(v: seq<sextet>): (s: string)
    ensures AllSymbols(s) && |s| == |v|
  {
    seq(|v|, i requires 0 <= i < |v| => Symbol(v[i]))
  }

  function Values(s: string): (v: seq<sextet>)
    requires AllSymbols(s)
    ensures |v| == |s|
  {
    seq(|s|, i requires 0 <= i < |s| => SymbolValue(s[i]))
  }

  /// Strings
  /// -------

  function Encode(bytes: seq<byte>): (s: string)
    ensures AllSymbols(s)
  {
    Spell(Split(bytes))
  }

  function Decode(s: string): Option<seq<byte>> {
    if AllSymbols(s) then Join(Values(s)) else None
  }

  lemma DecodesWhatItEncodes(bytes: seq<byte>)
    ensures Decode(Encode(bytes)) == Some(bytes)
  {
    JoinsWhatItSplits(bytes);
    assert Values(Spell(Split(bytes))) == Split(bytes);
  }

  lemma SymbolOfValue(c: char)
    requires IsSymbol(c)
    ensures Symbol(SymbolValue(c)) == c
  {
  }

  /** A byte string has one spelling: what decodes is what encoding would write. */
  lemma OneSpelling(s: string)
    requires Decode(s).Some?
    ensures Encode(Decode(s).value) == s
  {
    SplitsWhatItJoins(Values(s));
    forall i | 0 <= i < |s| ensures Spell(Values(s))[i] == s[i] {
      SymbolOfValue(s[i]);
    }
    assert Spell(Values(s)) == s;
  }

  /// What the symbols say
  /// --------------------

  /** The alphabet of table 2 in RFC 4648: three runs of consecutive characters and two more. */
  lemma SymbolsAreTheAlphabet(v: sextet)
    ensures Symbol(0) == 'A' && Symbol(25) == 'Z' && Symbol(26) == 'a' && Symbol(51) == 'z'
    ensures Symbol(52) == '0' && Symbol(61) == '9' && Symbol(62) == '-' && Symbol(63) == '_'
    ensures v < 63 && v !in {25, 51, 61, 62} ==> Symbol(v + 1) as int == Symbol(v) as int + 1
  {
  }

  function Bits(p: int, q: int, r: int, s: int): int { p * 262_144 + q * 4_096 + r * 64 + s }

  /** Three bytes are spelled by four symbols with the same bits, most significant first; two by three and one
      by two symbols, filled up with zero bits. */
  lemma GroupsKeepTheirBits(x: byte, y: byte, z: byte)
    ensures exists p: sextet, q: sextet, r: sextet, s: sextet ::
              Bits(p, q, r, s) == x * 65_536 + y * 256 + z && Encode([x, y, z]) == [Symbol(p), Symbol(q), Symbol(r), Symbol(s)]
    ensures exists p: sextet, q: sextet, r: sextet ::
              Bits(p, q, r, 0) == x * 65_536 + y * 256 && Encode([x, y]) == [Symbol(p), Symbol(q), Symbol(r)]
    ensures exists p: sextet, q: sextet :: Bits(p, q, 0, 0) == x * 65_536 && Encode([x]) == [Symbol(p), Symbol(q)]
  {
    hide Bits, Quad;
    ThreeAreFour(x, y, z);
    TwoAreThree(x, y);
    OneIsTwo(x);
  }

  lemma QuadKeepsItsBits(x: byte, y: byte, z: byte)
    ensures var s := Quad(x, y, z); Bits(s[0], s[1], s[2], s[3]) == x as int * 65_536 + y as int * 256 + z
  {
  }

  lemma ThreeAreFour(x: byte, y: byte, z: byte)
    ensures var s := Quad(x, y, z);
            && Bits(s[0], s[1], s[2], s[3]) == x as int * 65_536 + y as int * 256 + z
            && Encode([x, y, z]) == [Symbol(s[0]), Symbol(s[1]), Symbol(s[2]), Symbol(s[3])]
  {
    hide Bits, Quad, Symbol;
    QuadKeepsItsBits(x, y, z);
    assert [x, y, z][3..] == [];
    assert Split([x, y, z]) == Quad(x, y, z);
  }

  lemma TwoAreThree(x: byte, y: byte)
    ensures var s := Quad(x, y, 0);
            && Bits(s[0], s[1], s[2], 0) == x as int * 65_536 + y as int * 256
            && Encode([x, y]) == [Symbol(s[0]), Symbol(s[1]), Symbol(s[2])]
  {
    hide Bits, Symbol;
    QuadKeepsItsBits(x, y, 0);
    assert Split([x, y]) == Quad(x, y, 0)[..3];
  }

  lemma OneIsTwo(x: byte)
    ensures var s := Quad(x, 0, 0);
            && Bits(s[0], s[1], 0, 0) == x as int * 65_536
            && Encode([x]) == [Symbol(s[0]), Symbol(s[1])]
  {
    hide Bits, Symbol;
    QuadKeepsItsBits(x, 0, 0);
    assert Split([x]) == Quad(x, 0, 0)[..2];
  }

  /** Groups of three are spelled one after the other. */
  lemma {:induction false} GroupsAreSpelledInTurn(a: seq<byte>, b: seq<byte>)
    requires |a| % 3 == 0
    ensures Encode(a + b) == Encode(a) + Encode(b)
  {
    SplitsInTurn(a, b);
    assert Spell(Split(a) + Split(b)) == Spell(Split(a)) + Spell(Split(b));
  }

  lemma {:induction false} SplitsInTurn(a: seq<byte>, b: seq<byte>)
    requires |a| % 3 == 0
    ensures Split(a + b) == Split(a) + Split(b)
  {
    if a == [] {
      assert a + b == b;
    } else {
      assert (a + b)[3..] == a[3..] + b;
      SplitsInTurn(a[3..], b);
    }
  }
}
