/** Decoding UTF-8, the inverse of `TextPositions.Encode`. */
module Utf8 {
  import opened Common
  import opened Wrappers
  import opened TextPositions

  predicate IsScalar(v: int) {
    0 <= v < 0xD800 || 0xE000 <= v < 0x11_0000
  }

  /** The value that the bytes of one character spell, going by the first of them; -1 if it cannot
      be first or too few bytes follow. */
  function Spelled(bytes: seq<Byte>): (v: int) {
    if bytes == [] then -1
    else
      var b := bytes[0] as int;
      if b < 0x80 then b
      else if 0xC0 <= b < 0xE0 && |bytes| >= 2 then (b - 0xC0) * 64 + (bytes[1] as int - 0x80)
      else if 0xE0 <= b < 0xF0 && |bytes| >= 3 then
        (b - 0xE0) * 4096 + (bytes[1] as int - 0x80) * 64 + (bytes[2] as int - 0x80)
      else if 0xF0 <= b && |bytes| >= 4 then
        (b - 0xF0) * 262144 + (bytes[1] as int - 0x80) * 4096 + (bytes[2] as int - 0x80) * 64 + (bytes[3] as int - 0x80)
      else -1
  }

  /** The first character; overlong and otherwise malformed sequences do not spell one. */
  function DecodeFirst(bytes: seq<Byte>): (r: Option<char>)
    ensures r.Some? ==> Len8(r.value) <= |bytes| && EncodeChar(r.value) == bytes[..Len8(r.value)]
  {
    var v := Spelled(bytes);
    if !IsScalar(v) then None
    else
      var c := v as char;
      if Len8(c) <= |bytes| && EncodeChar(c) == bytes[..Len8(c)] then Some(c) else None
  }

  function Decode(bytes: seq<Byte>): Option<string>
    decreases |bytes|
  {
    if bytes == [] then Some("")
    else
      var c := DecodeFirst(bytes);
      if c.None? then None
      else
        var rest := Decode(bytes[Len8(c.value)..]);
        if rest.None? then None else Some([c.value] + rest.value)
  }

  lemma SpellsEncoded(c: char, rest: seq<Byte>)
    ensures Spelled(EncodeChar(c) + rest) == c as int
  {
    var bytes, v := EncodeChar(c) + rest, c as int;
    assert bytes[..Len8(c)] == EncodeChar(c);
    assert forall i :: 0 <= i < Len8(c) ==> bytes[i] == EncodeChar(c)[i];
    if 0x800 <= v < 0x1_0000 {
      assert v / 64 == v / 4096 * 64 + v / 64 % 64;
    } else if 0x1_0000 <= v {
      assert v / 64 == v / 4096 * 64 + v / 64 % 64;
      assert v / 4096 == v / 262144 * 64 + v / 4096 % 64;
    }
  }

  lemma DecodesFirst(c: char, rest: seq<Byte>)
    ensures DecodeFirst(EncodeChar(c) + rest) == Some(c)
  {
    SpellsEncoded(c, rest);
    assert (EncodeChar(c) + rest)[..Len8(c)] == EncodeChar(c);
  }

  lemma {:induction false} EncodeConcat(a: string, b: string)
    ensures Encode(a + b) == Encode(a) + Encode(b)
  {
    if b == "" {
      assert a + b == a;
    } else {
      var init := b[..|b| - 1];
      assert (a + b)[..|a + b| - 1] == a + init;
      EncodeConcat(a, init);
    }
  }

  lemma EncodeFirst(c: char, rest: string)
    ensures Encode([c] + rest) == EncodeChar(c) + Encode(rest)
  {
    EncodeConcat([c], rest);
    assert [c][..0] == "";
    assert Encode([c]) == Encode("") + EncodeChar(c);
  }

  lemma {:induction false} DecodesEncoded(text: string)
    ensures Decode(Encode(text)) == Some(text)
  {
    if text != "" {
      var c, rest := text[0], text[1..];
      assert text == [c] + rest;
      EncodeFirst(c, rest);
      DecodesFirst(c, Encode(rest));
      assert Encode(text)[Len8(c)..] == Encode(rest);
      DecodesEncoded(rest);
    }
  }

  /** Decoding accepts exactly the encodings of texts, and inverts them. */
  lemma {:induction false} DecodeIff(bytes: seq<Byte>, text: string)
    ensures Decode(bytes) == Some(text) <==> Encode(text) == bytes
    decreases |bytes|
  {
    DecodesEncoded(text);
    if Decode(bytes) == Some(text) && bytes != [] {
      var c, rest := text[0], text[1..];
      assert text == [c] + rest;
      DecodeIff(bytes[Len8(c)..], rest);
      EncodeFirst(c, rest);
      assert bytes == bytes[..Len8(c)] + bytes[Len8(c)..];
    }
  }

  lemma {:induction false} NoNewlineEncoded(text: string)
    requires '\n' !in text
    ensures NEWLINE !in Encode(text)
  {
    if text != "" {
      var init := text[..|text| - 1];
      assert forall c :: c in init ==> c in text;
      NoNewlineEncoded(init);
      assert text[|text| - 1] in text;
    }
  }

  // --------------------------------------------------------- well-formedness

  predicate IsTail(b: Byte) {
    0x80 <= b <= 0xBF
  }

  /** The byte sequences of one character, as section 4 of RFC 3629 lists them. */
  predicate IsUtf8Char(bytes: seq<Byte>) {
    match |bytes|
    case 1 => bytes[0] <= 0x7F
    case 2 => 0xC2 <= bytes[0] <= 0xDF && IsTail(bytes[1])
    case 3 =>
      && IsTail(bytes[1]) && IsTail(bytes[2]) && 0xE0 <= bytes[0] <= 0xEF
      && (bytes[0] == 0xE0 ==> 0xA0 <= bytes[1]) && (bytes[0] == 0xED ==> bytes[1] <= 0x9F)
    case 4 =>
      && IsTail(bytes[1]) && IsTail(bytes[2]) && IsTail(bytes[3]) && 0xF0 <= bytes[0] <= 0xF4
      && (bytes[0] == 0xF0 ==> 0x90 <= bytes[1]) && (bytes[0] == 0xF4 ==> bytes[1] <= 0x8F)
    case _ => false
  }

  lemma {:induction false} EncodesWell(c: char)
    ensures IsUtf8Char(EncodeChar(c))
  {
  }

  lemma {:induction false} SpelledIsEncoded(bytes: seq<Byte>)
    requires IsUtf8Char(bytes)
    ensures IsScalar(Spelled(bytes)) && EncodeChar(Spelled(bytes) as char) == bytes
  {
    match |bytes|
    case 2 => TwoDigits(bytes[0] as int - 0xC0, bytes[1] as int - 0x80);
    case 3 => ThreeSpelled(bytes);
    case 4 => FourSpelled(bytes);
    case _ =>
  }

  lemma {:induction false} TwoDigits(a: int, x: int)
    requires 0 <= x < 64
    ensures (a * 64 + x) / 64 == a && (a * 64 + x) % 64 == x
  {
  }

  lemma {:induction false} ThreeSpelled(bytes: seq<Byte>)
    requires IsUtf8Char(bytes) && |bytes| == 3
    ensures IsScalar(Spelled(bytes)) && EncodeChar(Spelled(bytes) as char) == bytes
  {
    var a, x, y := bytes[0] as int - 0xE0, bytes[1] as int - 0x80, bytes[2] as int - 0x80;
    var v := a * 4096 + x * 64 + y;
    assert Spelled(bytes) == v && 0x800 <= v < 0x1_0000;
    TwoDigits(a * 64 + x, y);
    TwoDigits(a, x);
    assert v / 64 == a * 64 + x && v / 4096 == a;
  }

  lemma {:induction false} FourSpelled(bytes: seq<Byte>)
    requires IsUtf8Char(bytes) && |bytes| == 4
    ensures IsScalar(Spelled(bytes)) && EncodeChar(Spelled(bytes) as char) == bytes
  {
    var a, x, y := bytes[0] as int - 0xF0, bytes[1] as int - 0x80, bytes[2] as int - 0x80;
    var z := bytes[3] as int - 0x80;
    var v := a * 262144 + x * 4096 + y * 64 + z;
    assert Spelled(bytes) == v && 0x1_0000 <= v < 0x11_0000;
    TwoDigits(a * 4096 + x * 64 + y, z);
    TwoDigits(a * 64 + x, y);
    TwoDigits(a, x);
    assert v / 64 == a * 4096 + x * 64 + y && v / 4096 == a * 64 + x && v / 262144 == a;
  }

  /** The encodings of characters are exactly the sequences of the standard. */
  lemma {:induction false} WellFormedIff(bytes: seq<Byte>)
    ensures IsUtf8Char(bytes) <==> exists c :: EncodeChar(c) == bytes
  {
    if IsUtf8Char(bytes) {
      SpelledIsEncoded(bytes);
      assert EncodeChar(Spelled(bytes) as char) == bytes;
    }
    if c :| EncodeChar(c) == bytes {
      EncodesWell(c);
    }
  }
}
