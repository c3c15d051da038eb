/** Unpadded base64 as the Go standard library writes and reads it (sections 3.2, 4 and 5 of RFC 4648). */
module Base64 {
  import opened Wrappers
  import opened ByteStrings

  datatype Alphabet = Standard | UrlSafe

  type Sextet = x: int | 0 <= x < 64

  function Symbol(a: Alphabet, v: Sextet): char {
    if v < 26 then 'A' + v as char
    else if v < 52 then 'a' + (v - 26) as char
    else if v < 62 then '0' + (v - 52) as char
    else if v == 62 then (if a.Standard? then '+' else '-')
    else (if a.Standard? then '/' else '_')
  }

  function Value(a: Alphabet, c: char): Option<Sextet> {
    if 'A' <= c <= 'Z' then Some((c - 'A') as int)
    else if 'a' <= c <= 'z' then Some((c - 'a') as int + 26)
    else if '0' <= c <= '9' then Some((c - '0') as int + 52)
    else if c == (if a.Standard? then '+' else '-') then Some(62)
    else if c == (if a.Standard? then '/' else '_') then Some(63)
    else None
  }

  /** EncodeToString of RawStdEncoding and RawURLEncoding */
  function Encode(a: Alphabet, b: Bytes): string {
    if b == [] then ""
    else if |b| == 1 then Symbols(a, Sextets1(b[0]))
    else if |b| == 2 then Symbols(a, Sextets2(b[0], b[1]))
    else Symbols(a, Sextets3(b[0], b[1], b[2])) + Encode(a, b[3..])
  }

  function Symbols(a: Alphabet, vs: seq<Sextet>): (s: string)
    ensures |s| == |vs|
  {
    seq(|vs|, i requires 0 <= i < |vs| => Symbol(a, vs[i]))
  }

  function Sextets1(x: Byte): seq<Sextet> {
    [x as int / 4, x as int % 4 * 16]
  }

  function Sextets2(x: Byte, y: Byte): seq<Sextet> {
    [x as int / 4, x as int % 4 * 16 + y as int / 16, y as int % 16 * 4]
  }

  function Sextets3(x: Byte, y: Byte, z: Byte): seq<Sextet> {
    [x as int / 4, x as int % 4 * 16 + y as int / 16, y as int % 16 * 4 + z as int / 64, z as int % 64]
  }

  predicate IsBreak(c: char) {
    c == '\r' || c == '\n'
  }

  function WithoutBreaks(s: string): string {
    if s == [] then [] else (if IsBreak(s[0]) then [] else [s[0]]) + WithoutBreaks(s[1..])
  }

  function Values(a: Alphabet, s: string): Option<seq<Sextet>> {
    if s == [] then Some([])
    else
      match Value(a, s[0])
      case None => None
      case Some(v) =>
        match Values(a, s[1..])
        case None => None
        case Some(vs) => Some([v] + vs)
  }

  /** The bytes of a run of sextets; spare low bits of the last group are dropped, a lone sextet is refused. */
  function Pack(vs: seq<Sextet>): Option<Bytes> {
    if vs == [] then Some([])
    else if |vs| == 1 then None
    else if |vs| == 2 then Some([First(vs[0], vs[1])])
    else if |vs| == 3 then Some([First(vs[0], vs[1]), Second(vs[1], vs[2])])
    else
      match Pack(vs[4..])
      case None => None
      case Some(rest) => Some([First(vs[0], vs[1]), Second(vs[1], vs[2]), Third(vs[2], vs[3])] + rest)
  }

  function First(v: Sextet, w: Sextet): Byte {
    (v as int * 4 + w as int / 16) as Byte
  }

  function Second(v: Sextet, w: Sextet): Byte {
    (v as int % 16 * 16 + w as int / 4) as Byte
  }

  function Third(v: Sextet, w: Sextet): Byte {
    (v as int % 4 * 64 + w as int) as Byte
  }

  /** DecodeString: line breaks are skipped, spare low bits are not checked. */
  function Decode(a: Alphabet, s: string): Option<Bytes> {
    match Values(a, WithoutBreaks(s))
    case None => None
    case Some(vs) => Pack(vs)
  }

  // ------------------------------------------------------------- properties

  predicate Plain(a: Alphabet, s: string) {
    forall i :: 0 <= i < |s| ==> Value(a, s[i]).Some?
  }

  lemma SymbolValue(a: Alphabet, v: Sextet)
    ensures Value(a, Symbol(a, v)) == Some(v)
  {
  }

  lemma ValueSymbol(a: Alphabet, c: char)
    requires Value(a, c).Some?
    ensures Symbol(a, Value(a, c).value) == c && !IsBreak(c) && c != '.' && c != '$' && c != ','
  {
  }

  lemma {:induction false} PlainKept(a: Alphabet, s: string)
    requires Plain(a, s)
    ensures WithoutBreaks(s) == s
  {
    if s != [] {
      ValueSymbol(a, s[0]);
      assert Plain(a, s[1..]);
      PlainKept(a, s[1..]);
    }
  }

  /** Every text of alphabet symbols is the symbols of its values, and back. */
  lemma {:induction false} ValuesOfSymbols(a: Alphabet, vs: seq<Sextet>)
    ensures Values(a, Symbols(a, vs)) == Some(vs) && Plain(a, Symbols(a, vs))
  {
    var s := Symbols(a, vs);
    forall i | 0 <= i < |s| ensures Value(a, s[i]).Some? { SymbolValue(a, vs[i]); }
    if vs != [] {
      ValuesOfSymbols(a, vs[1..]);
      assert s[1..] == Symbols(a, vs[1..]);
      SymbolValue(a, vs[0]);
      assert vs == [vs[0]] + vs[1..];
    }
  }

  lemma {:induction false} SymbolsOfValues(a: Alphabet, s: string)
    ensures Plain(a, s) <==> Values(a, s).Some?
    ensures Plain(a, s) ==> Symbols(a, Values(a, s).value) == s
  {
    if s != [] {
      SymbolsOfValues(a, s[1..]);
      assert Plain(a, s) <==> Value(a, s[0]).Some? && Plain(a, s[1..]);
      if Plain(a, s) {
        ValueSymbol(a, s[0]);
      }
    }
  }

  function Unpacked(b: Bytes): seq<Sextet> {
    if b == [] then []
    else if |b| == 1 then Sextets1(b[0])
    else if |b| == 2 then Sextets2(b[0], b[1])
    else Sextets3(b[0], b[1], b[2]) + Unpacked(b[3..])
  }

  lemma {:induction false} EncodeIsUnpacked(a: Alphabet, b: Bytes)
    ensures Encode(a, b) == Symbols(a, Unpacked(b))
  {
    if |b| >= 3 {
      EncodeIsUnpacked(a, b[3..]);
      var head, tail := Sextets3(b[0], b[1], b[2]), Unpacked(b[3..]);
      assert Symbols(a, head + tail) == Symbols(a, head) + Symbols(a, tail);
    }
  }

  lemma GroupOfBytes(x: Byte, y: Byte, z: Byte)
    ensures var vs := Sextets3(x, y, z);
            First(vs[0], vs[1]) == x && Second(vs[1], vs[2]) == y && Third(vs[2], vs[3]) == z
    ensures var vs := Sextets2(x, y); First(vs[0], vs[1]) == x && Second(vs[1], vs[2]) == y
    ensures var vs := Sextets1(x); First(vs[0], vs[1]) == x
  {
  }

  lemma FirstParts(v: Sextet, w: Sextet)
    ensures First(v, w) as int / 4 == v && First(v, w) as int % 4 == w / 16
  {
  }

  lemma SecondParts(v: Sextet, w: Sextet)
    ensures Second(v, w) as int / 16 == v % 16 && Second(v, w) as int % 16 == w / 4
  {
  }

  lemma ThirdParts(v: Sextet, w: Sextet)
    ensures Third(v, w) as int / 64 == v % 4 && Third(v, w) as int % 64 == w
  {
  }

  lemma BytesOfGroup(v: Sextet, w: Sextet, x: Sextet, y: Sextet)
    ensures Sextets3(First(v, w), Second(w, x), Third(x, y)) == [v, w, x, y]
    ensures Sextets2(First(v, w), Second(w, x)) == [v, w, x] <==> x % 4 == 0
    ensures Sextets1(First(v, w)) == [v, w] <==> w % 16 == 0
  {
    hide First, Second, Third;
    FirstParts(v, w);
    SecondParts(w, x);
    ThirdParts(x, y);
    assert Sextets2(First(v, w), Second(w, x)) == [v, w, x / 4 * 4];
    assert [v, w, x / 4 * 4][2] == x / 4 * 4;
    assert Sextets1(First(v, w)) == [v, w / 16 * 16];
    assert [v, w / 16 * 16][1] == w / 16 * 16;
  }

  lemma {:induction false} PackUnpacked(b: Bytes)
    ensures Pack(Unpacked(b)) == Some(b)
  {
    hide First, Second, Third;
    if |b| >= 3 {
      PackUnpacked(b[3..]);
      assert Unpacked(b)[4..] == Unpacked(b[3..]);
      GroupOfBytes(b[0], b[1], b[2]);
      assert b == [b[0], b[1], b[2]] + b[3..];
    } else if |b| > 0 {
      GroupOfBytes(b[0], b[|b| - 1], 0);
      assert b == if |b| == 1 then [b[0]] else [b[0], b[1]];
    }
  }

  /** Decoding undoes encoding, and the encoded text has no separator in it. */
  lemma RoundTrip(a: Alphabet, b: Bytes)
    ensures Decode(a, Encode(a, b)) == Some(b)
    ensures Plain(a, Encode(a, b)) && (Encode(a, b) == "" <==> b == [])
  {
    EncodeIsUnpacked(a, b);
    ValuesOfSymbols(a, Unpacked(b));
    PlainKept(a, Encode(a, b));
    PackUnpacked(b);
  }

  lemma PlainHasNoSeparator(a: Alphabet, s: string)
    requires Plain(a, s)
    ensures '.' !in s && '$' !in s && ',' !in s
  {
    forall i | 0 <= i < |s| ensures s[i] != '.' && s[i] != '$' && s[i] != ',' {
      ValueSymbol(a, s[i]);
    }
  }

  /** A text the decoder accepts holds alphabet symbols and line breaks only. */
  lemma {:induction false} AcceptedHasNoSeparator(a: Alphabet, s: string)
    requires Values(a, WithoutBreaks(s)).Some?
    ensures '.' !in s && '$' !in s && ',' !in s
  {
    if s != [] {
      var rest := WithoutBreaks(s[1..]);
      if !IsBreak(s[0]) {
        assert ([s[0]] + rest)[1..] == rest;
        ValueSymbol(a, s[0]);
      } else {
        assert [] + rest == rest;
      }
      AcceptedHasNoSeparator(a, s[1..]);
      assert s == [s[0]] + s[1..];
    }
  }

  /** What the decoder accepts: alphabet symbols and line breaks, unless one symbol is left over from groups of four. */
  lemma DecodeAccepts(a: Alphabet, s: string)
    ensures Decode(a, s).Some? <==>
      && (forall i :: 0 <= i < |s| ==> s[i] == '\r' || s[i] == '\n' || Value(a, s[i]).Some?)
      && |WithoutBreaks(s)| % 4 != 1
  {
    SymbolsAndBreaks(a, s);
    SymbolsOfValues(a, WithoutBreaks(s));
    if Values(a, WithoutBreaks(s)).Some? {
      PackAccepts(Values(a, WithoutBreaks(s)).value);
    }
  }

  lemma {:induction false} SymbolsAndBreaks(a: Alphabet, s: string)
    ensures Values(a, WithoutBreaks(s)).Some? <==>
      forall i :: 0 <= i < |s| ==> s[i] == '\r' || s[i] == '\n' || Value(a, s[i]).Some?
  {
    hide Value;
    if s != [] {
      var rest := WithoutBreaks(s[1..]);
      SymbolsAndBreaks(a, s[1..]);
      if IsBreak(s[0]) {
        assert [] + rest == rest;
      } else {
        assert ([s[0]] + rest)[1..] == rest;
      }
      assert forall i :: 1 <= i < |s| ==> s[i] == s[1..][i - 1];
      assert forall i :: 0 <= i < |s[1..]| ==> s[1..][i] == s[i + 1];
    }
  }

  lemma {:induction false} PackAccepts(vs: seq<Sextet>)
    ensures Pack(vs).Some? <==> |vs| % 4 != 1
  {
    hide First, Second, Third;
    if |vs| >= 4 {
      PackAccepts(vs[4..]);
      DropFour(|vs|);
      assert Pack(vs).Some? <==> Pack(vs[4..]).Some?;
    } else {
      assert |vs| % 4 == |vs|;
    }
  }

  lemma DropFour(n: nat)
    requires n >= 4
    ensures (n - 4) % 4 == n % 4
  {
  }

  /** The low bits of the last sextet that no byte uses are zero. */
  predicate SpareBitsZero(vs: seq<Sextet>) {
    && (|vs| % 4 == 2 ==> vs[|vs| - 1] % 16 == 0)
    && (|vs| % 4 == 3 ==> vs[|vs| - 1] % 4 == 0)
  }

  lemma SpareBitsOfRest(vs: seq<Sextet>)
    requires |vs| >= 4
    ensures SpareBitsZero(vs) <==> SpareBitsZero(vs[4..])
  {
  }

  lemma {:induction false} UnpackedPack(vs: seq<Sextet>)
    requires Pack(vs).Some?
    ensures Unpacked(Pack(vs).value) == vs <==> SpareBitsZero(vs)
  {
    hide First, Second, Third, Sextets1, Sextets2, Sextets3;
    var b := Pack(vs).value;
    if |vs| >= 4 {
      hide SpareBitsZero;
      var rest := vs[4..];
      UnpackedPack(rest);
      SpareBitsOfRest(vs);
      assert b[3..] == Pack(rest).value;
      BytesOfGroup(vs[0], vs[1], vs[2], vs[3]);
      assert vs == [vs[0], vs[1], vs[2], vs[3]] + rest;
      assert Unpacked(b) == [vs[0], vs[1], vs[2], vs[3]] + Unpacked(b[3..]);
      assert Unpacked(b)[4..] == Unpacked(b[3..]);
    } else if |vs| == 3 {
      BytesOfGroup(vs[0], vs[1], vs[2], 0);
    } else if |vs| == 2 {
      BytesOfGroup(vs[0], vs[1], 0, 0);
    }
  }

  lemma {:induction false} BreaksShorten(s: string)
    ensures |WithoutBreaks(s)| <= |s|
    ensures WithoutBreaks(s) == s <==> forall i :: 0 <= i < |s| ==> !IsBreak(s[i])
  {
    if s != [] {
      BreaksShorten(s[1..]);
      assert (forall i :: 0 <= i < |s| ==> !IsBreak(s[i])) <==>
             !IsBreak(s[0]) && (forall i :: 0 <= i < |s[1..]| ==> !IsBreak(s[1..][i]));
    }
  }

  /**
   The decoder is looser than the encoder: a text it accepts is the encoding of
   its bytes exactly when it holds no line break and its spare bits are zero.
   */
  lemma AcceptedIsCanonical(a: Alphabet, s: string)
    requires Decode(a, s).Some?
    ensures Encode(a, Decode(a, s).value) == s <==>
            (forall i :: 0 <= i < |s| ==> !IsBreak(s[i])) && SpareBitsZero(Values(a, WithoutBreaks(s)).value)
  {
    var clean := WithoutBreaks(s);
    var vs := Values(a, clean).value;
    var b := Pack(vs).value;
    SymbolsOfValues(a, clean);
    BreaksShorten(s);
    EncodeIsUnpacked(a, b);
    ValuesOfSymbols(a, Unpacked(b));
    UnpackedPack(vs);
    PlainKept(a, Encode(a, b));
  }

  /** The four symbols at 4n are the base-64 digits, leading one first, of the n-th three bytes read as one number. */
  lemma {:induction false} EncodeAt(a: Alphabet, b: Bytes, n: nat)
    requires 3 * n + 3 <= |b|
    ensures |Encode(a, b)| >= 4 * n + 4 && Plain(a, Encode(a, b)[4 * n..4 * n + 4])
    ensures Number(a, Encode(a, b)[4 * n..4 * n + 4]) ==
            b[3 * n] as int * 0x10000 + b[3 * n + 1] as int * 0x100 + b[3 * n + 2] as int
    decreases n
  {
    hide Symbols, Sextets3;
    var head := Symbols(a, Sextets3(b[0], b[1], b[2]));
    var rest := Encode(a, b[3..]);
    GroupNumber(a, b[0], b[1], b[2]);
    assert Encode(a, b) == head + rest;
    if n > 0 {
      EncodeAt(a, b[3..], n - 1);
      assert (head + rest)[4 * n..4 * n + 4] == rest[4 * (n - 1)..4 * (n - 1) + 4];
    } else {
      assert (head + rest)[0..4] == head;
    }
  }

  /** A text of symbols as a number in base 64. */
  function Number(a: Alphabet, s: string): int
    requires Plain(a, s)
  {
    if s == [] then 0 else Number(a, s[..|s| - 1]) * 64 + Value(a, s[|s| - 1]).value
  }

  lemma GroupNumber(a: Alphabet, x: Byte, y: Byte, z: Byte)
    ensures var s := Symbols(a, Sextets3(x, y, z));
      |s| == 4 && Plain(a, s) && Number(a, s) == x as int * 0x10000 + y as int * 0x100 + z as int
  {
    var vs := Sextets3(x, y, z);
    var s := Symbols(a, vs);
    forall i | 0 <= i < 4 ensures Value(a, s[i]) == Some(vs[i]) {
      SymbolValue(a, vs[i]);
    }
    hide Value, Symbol;
    assert s[..3][..2] == s[..2] && s[..2][..1] == s[..1] && s[..1][..0] == [];
    assert Number(a, s[..1]) == vs[0];
    assert Number(a, s[..2]) == vs[0] as int * 64 + vs[1];
    assert Number(a, s[..3]) == (vs[0] as int * 64 + vs[1]) * 64 + vs[2];
    assert s[..4] == s;
  }
}
