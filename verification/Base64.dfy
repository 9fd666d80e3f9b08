/**
 URL-safe base 64 (Support/lib/Base64.cpp:29-60): the standard encoding of RFC 4648, section 4, with
 the two characters of section 5 put in place of '+' and '/' and the padding removed.  File names of
 the blob cache are made this way.
 */
module Base64 {
  import opened Common
  import opened Arithmetic

  // ----- the standard encoding, RFC 4648 section 4 -----

  function Symbol(v: nat): char
    requires v < 64
  {
    if v < 26 then (65 + v) as char
    else if v < 52 then (71 + v) as char
    else if v < 62 then (v - 4) as char
    else if v == 62 then '+' else '/'
  }

  function Unsymbol(c: char): Option<nat> {
    var n := c as int;
    if 65 <= n < 91 then Some(n - 65)
    else if 97 <= n < 123 then Some(n - 71)
    else if 48 <= n < 58 then Some(n + 4)
    else if c == '+' then Some(62)
    else if c == '/' then Some(63)
    else None
  }

  lemma UnsymbolSymbol(v: nat)
    requires v < 64
    ensures Unsymbol(Symbol(v)) == Some(v) && Symbol(v) != '='
  {
  }

  /** The symbols of up to three bytes, without padding. */
  function Group(s: bytes): (g: string)
    requires 1 <= |s| <= 3
    ensures |g| == |s| + 1
  {
    var a, b, c := s[0] as nat, if |s| > 1 then s[1] as nat else 0, if |s| > 2 then s[2] as nat else 0;
    [Symbol(a / 4), Symbol(a % 4 * 16 + b / 16)]
    + (if |s| > 1 then [Symbol(b % 16 * 4 + c / 64)] else [])
    + (if |s| > 2 then [Symbol(c % 64)] else [])
  }

  /** The encoding without its padding, and the padding. */
  function Symbols(s: bytes): string {
    if s == [] then "" else if |s| <= 3 then Group(s) else Group(s[..3]) + Symbols(s[3..])
  }

  function Padding(s: bytes): string {
    if |s| % 3 == 1 then "==" else if |s| % 3 == 2 then "=" else ""
  }

  function Encode(s: bytes): string {
    Symbols(s) + Padding(s)
  }

  /** The bytes of a group of two to four symbols. */
  function Ungroup(g: string): Option<bytes>
    requires 2 <= |g| <= 4
  {
    var p, q := Unsymbol(g[0]), Unsymbol(g[1]);
    var r, t := if |g| > 2 then Unsymbol(g[2]) else Some(0), if |g| > 3 then Unsymbol(g[3]) else Some(0);
    if p.None? || q.None? || r.None? || t.None? then None
    else
      var all := [First(p.value, q.value), Second(q.value, r.value), Third(r.value, t.value)];
      Some(all[..|g| - 1])
  }

  /** Each byte is the low bits of one symbol followed by the high bits of the next. */
  function First(p: nat, q: nat): byte {
    ((p * 4 + q / 16) % 256) as byte
  }

  function Second(q: nat, r: nat): byte {
    ((q * 16 + r / 4) % 256) as byte
  }

  function Third(r: nat, t: nat): byte {
    ((r * 64 + t) % 256) as byte
  }

  /** Groups of four; only the last may end in one or two '='. */
  function Decode(t: string): Option<bytes> {
    if t == "" then Some([])
    else if |t| < 4 then None
    else if |t| == 4 then
      if t[3] != '=' then Ungroup(t) else if t[2] != '=' then Ungroup(t[..3]) else Ungroup(t[..2])
    else
      match (Ungroup(t[..4]), Decode(t[4..]))
      case (Some(a), Some(b)) => Some(a + b)
      case _ => None
  }

  lemma UngroupOne(x: byte)
    ensures Ungroup(Group([x])) == Some([x]) && Clean(Group([x]))
  {
    var a := x as nat;
    UnsymbolSymbol(a / 4);
    UnsymbolSymbol(a % 4 * 16);
    FirstBack(a, 0);
    assert Group([x]) == [Symbol(a / 4), Symbol(a % 4 * 16)];
    assert [First(a / 4, a % 4 * 16), Second(a % 4 * 16, 0), Third(0, 0)][..1] == [x];
  }

  lemma UngroupTwo(x: byte, y: byte)
    ensures Ungroup(Group([x, y])) == Some([x, y]) && Clean(Group([x, y]))
  {
    var a, b := x as nat, y as nat;
    var p, q, r := a / 4, a % 4 * 16 + b / 16, b % 16 * 4;
    UnsymbolSymbol(p);
    UnsymbolSymbol(q);
    UnsymbolSymbol(r);
    FirstBack(a, b);
    SecondBack(a, b, 0);
    assert Group([x, y]) == [Symbol(p), Symbol(q), Symbol(r)];
    assert [First(p, q), Second(q, r), Third(r, 0)][..2] == [x, y];
  }

  lemma UngroupThree(x: byte, y: byte, z: byte)
    ensures Ungroup(Group([x, y, z])) == Some([x, y, z]) && Clean(Group([x, y, z]))
  {
    var a, b, c := x as nat, y as nat, z as nat;
    var p, q, r, t := a / 4, a % 4 * 16 + b / 16, b % 16 * 4 + c / 64, c % 64;
    UnsymbolSymbol(p);
    UnsymbolSymbol(q);
    UnsymbolSymbol(r);
    UnsymbolSymbol(t);
    FirstBack(a, b);
    SecondBack(a, b, c);
    ThirdBack(b, c);
    assert Group([x, y, z]) == [Symbol(p), Symbol(q), Symbol(r), Symbol(t)];
    assert [First(p, q), Second(q, r), Third(r, t)][..3] == [x, y, z];
  }

  lemma UngroupGroup(s: bytes)
    requires 1 <= |s| <= 3
    ensures Ungroup(Group(s)) == Some(s)
    ensures Clean(Group(s))
  {
    if |s| == 1 {
      assert s == [s[0]];
      UngroupOne(s[0]);
    } else if |s| == 2 {
      assert s == [s[0], s[1]];
      UngroupTwo(s[0], s[1]);
    } else {
      assert s == [s[0], s[1], s[2]];
      UngroupThree(s[0], s[1], s[2]);
    }
  }

  lemma FirstBack(a: nat, b: nat)
    requires a < 256 && b < 256
    ensures First(a / 4, a % 4 * 16 + b / 16) as nat == a
  {
    assert (a % 4 * 16 + b / 16) / 16 == a % 4;
  }

  lemma SecondBack(a: nat, b: nat, c: nat)
    requires a < 256 && b < 256 && c < 256
    ensures Second(a % 4 * 16 + b / 16, b % 16 * 4 + c / 64) as nat == b
  {
    SecondParts(a % 4, b / 16, b % 16, c / 64);
  }

  lemma SecondParts(x: nat, u: nat, w: nat, z: nat)
    requires x < 4 && u < 16 && w < 16 && z < 4
    ensures Second(x * 16 + u, w * 4 + z) as nat == u * 16 + w
  {
    assert (w * 4 + z) / 4 == w;
  }

  lemma ThirdBack(b: nat, c: nat)
    requires b < 256 && c < 256
    ensures Third(b % 16 * 4 + c / 64, c % 64) as nat == c
  {
    assert (b % 16 * 4 + c / 64) * 64 == b % 16 * 256 + c / 64 * 64;
  }

  // ----- the URL-safe variant -----

  function Translated(t: string, from: char, to: char): (r: string)
    ensures |r| == |t|
    ensures forall i | 0 <= i < |t| :: r[i] == if t[i] == from then to else t[i]
  {
    seq(|t|, i requires 0 <= i < |t| => if t[i] == from then to else t[i])
  }

  function Stripped(t: string, most: nat): string {
    if most == 0 || t == "" || t[|t| - 1] != '=' then t else Stripped(t[..|t| - 1], most - 1)
  }

  function EncodeURLSafe(s: bytes): string
    requires s != []
  {
    Stripped(Translated(Translated(Encode(s), '+', '-'), '/', '_'), 3)
  }

  function Filler(n: nat): string {
    seq(n, _ => '=')
  }

  function DecodeURLSafe(t: string): Option<bytes> {
    var out := Translated(Translated(t, '-', '+'), '_', '/');
    Decode(if |t| % 4 != 0 then out + Filler(4 - |t| % 4) else out)
  }

  /** `std::replace_if` over the whole string. */
  method ReplaceAll(t: string, from: char, to: char) returns (out: string)
    ensures out == Translated(t, from, to)
  {
    out := t;
    for i := 0 to |t|
      invariant |out| == |t|
      invariant forall k | 0 <= k < i :: out[k] == Translated(t, from, to)[k]
      invariant forall k | i <= k < |t| :: out[k] == t[k]
    {
      if out[i] == from {
        out := out[i := to];
      }
    }
  }

  /** `encodeURLSafeBase64` */
  method EncodeInPlace(s: bytes) returns (out: string)
    requires s != []
    ensures out == EncodeURLSafe(s)
  {
    out := Encode(s);
    out := ReplaceAll(out, '+', '-');
    out := ReplaceAll(out, '/', '_');
    ghost var full := out;
    var i := 0;
    while i < 3
      invariant 0 <= i <= 3 && Stripped(full, 3) == Stripped(out, 3 - i)
      invariant |out| >= |full| - i && |full| >= 4
    {
      if out[|out| - 1] != '=' {
        break;
      }
      out := out[..|out| - 1];
      i := i + 1;
    }
  }

  // ----- what the encoding guarantees -----

  predicate Clean(t: string) {
    forall i | 0 <= i < |t| :: Unsymbol(t[i]).Some? && t[i] != '='
  }

  lemma {:induction false} SymbolsClean(s: bytes)
    ensures Clean(Symbols(s))
  {
    if |s| > 3 {
      UngroupGroup(s[..3]);
      SymbolsClean(s[3..]);
    } else if s != [] {
      UngroupGroup(s);
    }
  }

  lemma ThreeLess(n: nat)
    requires n > 3
    ensures (n + 2) / 3 == (n - 3 + 2) / 3 + 1 && n % 3 == (n - 3) % 3
  {
  }

  lemma PaddingAfter(s: bytes)
    requires |s| > 3
    ensures Padding(s) == Padding(s[3..])
  {
    ThreeLess(|s|);
  }

  /** Every three bytes become four symbols, a rest of one or two bytes two or three and the padding. */
  lemma {:induction false} EncodedLength(s: bytes)
    ensures |Symbols(s)| + |Padding(s)| == 4 * ((|s| + 2) / 3)
  {
    if |s| > 3 {
      EncodedLength(s[3..]);
      ThreeLess(|s|);
      PaddingAfter(s);
    }
  }

  lemma ShortOfFour(n: nat, p: nat, k: nat)
    requires n + p == 4 * k && p <= 2
    ensures n % 4 == (if p == 0 then 0 else 4 - p) && (k > 0 ==> n >= 2)
  {
  }

  /** The padding is what the symbols lack to a multiple of four. */
  lemma SymbolsLength(s: bytes)
    ensures |Symbols(s)| % 4 == if |Padding(s)| == 0 then 0 else 4 - |Padding(s)|
    ensures s != [] ==> |Symbols(s)| >= 2
  {
    EncodedLength(s);
    ShortOfFour(|Symbols(s)|, |Padding(s)|, (|s| + 2) / 3);
  }

  lemma DecodeCons(g: string, rest: string, a: bytes, b: bytes)
    requires |g| == 4 && g[3] != '=' && Ungroup(g) == Some(a) && rest != "" && Decode(rest) == Some(b)
    ensures Decode(g + rest) == Some(a + b)
  {
    var t := g + rest;
    assert t[..4] == g && t[4..] == rest;
  }

  lemma DecodeLast(g: string, pad: string, s: bytes)
    requires 2 <= |g| <= 4 && |g| + |pad| == 4 && Clean(g) && (forall i | 0 <= i < |pad| :: pad[i] == '=')
    requires Ungroup(g) == Some(s)
    ensures Decode(g + pad) == Some(s)
  {
    assert (g + pad)[..|g|] == g;
    assert |g| == 4 ==> g + pad == g;
  }

  lemma EncodeCons(s: bytes)
    requires |s| > 3
    ensures Encode(s) == Group(s[..3]) + Encode(s[3..])
  {
    PaddingAfter(s);
  }

  lemma {:induction false} DecodeEncode(s: bytes)
    ensures Decode(Encode(s)) == Some(s)
  {
    if |s| > 3 {
      DecodeEncode(s[3..]);
      UngroupGroup(s[..3]);
      SymbolsLength(s[3..]);
      EncodeCons(s);
      DecodeCons(Group(s[..3]), Encode(s[3..]), s[..3], s[3..]);
      assert s[..3] + s[3..] == s;
    } else if s != [] {
      UngroupGroup(s);
      DecodeLast(Group(s), Padding(s), s);
    }
  }

  /** The characters that name a file: letters, digits, '-' and '_'. */
  predicate NameChar(c: char) {
    (Unsymbol(c).Some? && c != '+' && c != '/') || c == '-' || c == '_'
  }

  function Renamed(c: char): char {
    if c == '+' then '-' else if c == '/' then '_' else c
  }

  lemma RenamedClean(c: char)
    requires Unsymbol(c).Some?
    ensures NameChar(Renamed(c)) && Renamed(c) != '='
    ensures (if Renamed(c) == '-' then '+' else if Renamed(c) == '_' then '/' else Renamed(c)) == c
  {
  }

  /** Stripping removes exactly the padding, and nothing but name characters remain. */
  lemma EncodedShape(s: bytes)
    requires s != []
    ensures var e := EncodeURLSafe(s);
            && |e| == |Symbols(s)|
            && forall i | 0 <= i < |e| :: e[i] == Renamed(Symbols(s)[i]) && NameChar(e[i])
  {
    SymbolsClean(s);
    SymbolsLength(s);
    var core := Symbols(s);
    var all := Translated(Translated(Encode(s), '+', '-'), '/', '_');
    forall i | 0 <= i < |core| ensures all[i] == Renamed(core[i]) && NameChar(all[i]) && all[i] != '=' {
      RenamedClean(core[i]);
    }
    var head := all[..|core|];
    assert all[|core|..] == Padding(s);
    assert all == head + Padding(s);
    assert head[|head| - 1] != '=';
    StripPadding(head, Padding(s));
  }

  lemma StripPadding(head: string, pad: string)
    requires head != "" && head[|head| - 1] != '=' && (pad == "" || pad == "=" || pad == "==")
    ensures Stripped(head + pad, 3) == head
  {
    var t := head + pad;
    if pad == "=" {
      assert t[..|t| - 1] == head;
    } else if pad == "==" {
      var one := head + "=";
      assert t[..|t| - 1] == one && one[..|one| - 1] == head;
      assert Stripped(one, 2) == Stripped(head, 1) == head;
    } else {
      assert t == head;
    }
  }

  /** Decoding inverts encoding on every non-empty string. */
  lemma RoundTrip(s: bytes)
    requires s != []
    ensures DecodeURLSafe(EncodeURLSafe(s)) == Some(s)
  {
    EncodedShape(s);
    SymbolsClean(s);
    var e, core := EncodeURLSafe(s), Symbols(s);
    var back := Translated(Translated(e, '-', '+'), '_', '/');
    forall i | 0 <= i < |core| ensures back[i] == core[i] {
      RenamedClean(core[i]);
    }
    assert back == core;
    PaddingRestored(s);
    DecodeEncode(s);
  }

  lemma PaddingRestored(s: bytes)
    requires s != []
    ensures var n := |Symbols(s)|; Encode(s) == if n % 4 != 0 then Symbols(s) + Filler(4 - n % 4) else Symbols(s)
  {
    SymbolsLength(s);
    if |Padding(s)| == 0 {
      assert Symbols(s) + "" == Symbols(s);
    } else {
      assert Padding(s) == Filler(|Padding(s)|);
    }
  }

  /** Different keys never share a name, and no name holds '+', '/' or '='. */
  lemma NamesDistinct(a: bytes, b: bytes)
    requires a != [] && b != [] && EncodeURLSafe(a) == EncodeURLSafe(b)
    ensures a == b
  {
    RoundTrip(a);
    RoundTrip(b);
  }

  lemma NamesSafe(s: bytes)
    requires s != []
    ensures EncodeURLSafe(s) != ""
    ensures forall c | c in EncodeURLSafe(s) :: NameChar(c) && c != '+' && c != '/' && c != '='
  {
    EncodedShape(s);
    SymbolsLength(s);
  }

  // ----- the text of RFC 4648, spelled out -----

  function Letter(v: nat): char
    requires v < 64
  {
    if v < 26 then "ABCDEFGHIJKLMNOPQRSTUVWXYZ"[v]
    else if v < 52 then "abcdefghijklmnopqrstuvwxyz"[v - 26]
    else "0123456789+/"[v - 52]
  }

  /** A 24 bit number as four digits to the base 64, the highest first. */
  function Quad(n: nat): (q: string)
    requires n < 0x100_0000
    ensures |q| == 4
  {
    [Letter(n / 0x4_0000), Letter(n / 0x1000 % 64), Letter(n / 64 % 64), Letter(n % 64)]
  }

  /** Three bytes as one number, the first byte highest. */
  function Joined(a: byte, b: byte, c: byte): (n: nat)
    ensures n < 0x100_0000
  {
    a as nat * 0x1_0000 + b as nat * 0x100 + c as nat
  }

  /** Table 1 and the rules of padding in section 4. */
  function Standard(s: bytes): string {
    if s == [] then ""
    else if |s| == 1 then Quad(Joined(s[0], 0, 0))[..2] + "=="
    else if |s| == 2 then Quad(Joined(s[0], s[1], 0))[..3] + "="
    else Quad(Joined(s[0], s[1], s[2])) + Standard(s[3..])
  }

  lemma SymbolIs(v: nat)
    requires v < 64
    ensures Symbol(v) == Letter(v)
  {
  }

  lemma SecondDigit(a: nat, b: nat, c: nat)
    requires a < 256 && b < 256 && c < 256
    ensures (a * 0x1_0000 + b * 0x100 + c) / 0x1000 % 64 == a % 4 * 16 + b / 16
  {
    assert (a * 0x1_0000 + b * 0x100 + c) / 0x1000 == a * 16 + b / 16;
  }

  lemma ThirdDigit(a: nat, b: nat, c: nat)
    requires a < 256 && b < 256 && c < 256
    ensures (a * 0x1_0000 + b * 0x100 + c) / 64 % 64 == b % 16 * 4 + c / 64
  {
    assert (a * 0x1_0000 + b * 0x100 + c) / 64 == a * 1024 + b * 4 + c / 64;
    var rest := b % 16 * 4 + c / 64;
    assert a * 1024 + b * 4 + c / 64 == rest + (a * 16 + b / 16) * 64;
    ModShift(rest, a * 16 + b / 16, 64);
  }

  lemma OuterDigits(a: nat, b: nat, c: nat)
    requires a < 256 && b < 256 && c < 256
    ensures (a * 0x1_0000 + b * 0x100 + c) / 0x4_0000 == a / 4 && (a * 0x1_0000 + b * 0x100 + c) % 64 == c % 64
  {
  }

  lemma QuadSymbols(n: nat, p: nat, q: nat, r: nat, t: nat)
    requires n < 0x100_0000 && p < 64 && q < 64 && r < 64 && t < 64
    requires n / 0x4_0000 == p && n / 0x1000 % 64 == q && n / 64 % 64 == r && n % 64 == t
    ensures Quad(n) == [Symbol(p), Symbol(q), Symbol(r), Symbol(t)]
  {
    SymbolIs(p);
    SymbolIs(q);
    SymbolIs(r);
    SymbolIs(t);
  }

  lemma GroupSymbols(x: byte, y: byte, z: byte)
    ensures var a, b, c := x as nat, y as nat, z as nat;
            Group([x, y, z]) == [Symbol(a / 4), Symbol(a % 4 * 16 + b / 16), Symbol(b % 16 * 4 + c / 64), Symbol(c % 64)]
  {
  }

  lemma QuadIs(x: byte, y: byte, z: byte)
    ensures Quad(Joined(x, y, z)) == Group([x, y, z])
  {
    var a, b, c := x as nat, y as nat, z as nat;
    OuterDigits(a, b, c);
    SecondDigit(a, b, c);
    ThirdDigit(a, b, c);
    QuadSymbols(Joined(x, y, z), a / 4, a % 4 * 16 + b / 16, b % 16 * 4 + c / 64, c % 64);
    GroupSymbols(x, y, z);
  }

  lemma ShorterGroups(x: byte, y: byte)
    ensures Group([x]) == Group([x, 0, 0])[..2] && Group([x, y]) == Group([x, y, 0])[..3]
  {
  }

  lemma OneIsStandard(x: byte)
    ensures Encode([x]) == Standard([x])
  {
    assert Encode([x]) == Group([x]) + "==";
    QuadIs(x, 0, 0);
    ShorterGroups(x, 0);
  }

  lemma TwoIsStandard(x: byte, y: byte)
    ensures Encode([x, y]) == Standard([x, y])
  {
    assert Encode([x, y]) == Group([x, y]) + "=";
    QuadIs(x, y, 0);
    ShorterGroups(x, y);
  }

  lemma StandardCons(s: bytes)
    requires |s| >= 3
    ensures Standard(s) == Quad(Joined(s[0], s[1], s[2])) + Standard(s[3..])
  {
  }

  lemma QuadOf(s: bytes)
    requires |s| == 3
    ensures Quad(Joined(s[0], s[1], s[2])) == Group(s)
  {
    QuadIs(s[0], s[1], s[2]);
    assert s == [s[0], s[1], s[2]];
  }

  lemma ThreeIsStandard(s: bytes)
    requires |s| >= 3
    ensures Group(s[..3]) + Standard(s[3..]) == Standard(s)
  {
    StandardCons(s);
    QuadOf(s[..3]);
  }

  lemma EncodeThree(s: bytes)
    requires |s| == 3
    ensures Encode(s) == Group(s[..3]) + Standard(s[3..])
  {
    assert s[..3] == s && s[3..] == [];
  }

  /** The encoding is the standard one. */
  lemma {:induction false} EncodeIsStandard(s: bytes)
    ensures Encode(s) == Standard(s)
  {
    if |s| > 3 {
      EncodeIsStandard(s[3..]);
      EncodeCons(s);
      ThreeIsStandard(s);
    } else if |s| == 3 {
      EncodeThree(s);
      ThreeIsStandard(s);
    } else if |s| == 2 {
      TwoIsStandard(s[0], s[1]);
      assert s == [s[0], s[1]];
    } else if |s| == 1 {
      OneIsStandard(s[0]);
      assert s == [s[0]];
    }
  }

  /** The name is the standard text without its padding, with minus for plus and underscore for slash. */
  lemma URLSafeExactly(s: bytes)
    requires s != []
    ensures var e, t := EncodeURLSafe(s), Standard(s);
            && |e| <= |t| <= |e| + 2 && (forall i | |e| <= i < |t| :: t[i] == '=')
            && forall i | 0 <= i < |e| :: t[i] != '=' && e[i] == if t[i] == '+' then '-' else if t[i] == '/' then '_' else t[i]
  {
    EncodeIsStandard(s);
    EncodedShape(s);
    SymbolsClean(s);
  }
}
