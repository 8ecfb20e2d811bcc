/** Base64, as in sections 4 and 5 of RFC 4648. Characters are the bytes of their codes. */
module Base64 {
  import opened Wrappers

  type Byte = b: int | 0 <= b < 256

  type Sextet = v: int | 0 <= v < 64

  datatype Alphabet = Auto | Standard | UrlFilenameSafe

  /** Without strict padding, anything may follow it. */
  datatype Behavior = Moderate | Loose

  datatype Base64Error = InvalidCharacter

  const PAD: Byte := '=' as int

  /** The character for six bits. */
  function Letter(a: Alphabet, v: Sextet): Byte {
    if v < 26 then 'A' as int + v
    else if v < 52 then 'a' as int + (v - 26)
    else if v < 62 then '0' as int + (v - 52)
    else if a == UrlFilenameSafe then (if v == 62 then '-' else '_') as int
    else (if v == 62 then '+' else '/') as int
  }

  /** The characters of both alphabets but the last two, in the order of their values. */
  const FIRST_LETTERS := "ABCDEFGHIJKLMNOPQRSTUVWXYZ"
  const NEXT_LETTERS := "abcdefghijklmnopqrstuvwxyz"
  const DIGITS := "0123456789"

  /** The alphabets of sections 4 and 5 of RFC 4648, letter by letter. */
  lemma LetterIs(a: Alphabet, v: Sextet)
    ensures Letter(a, v) == (if v < 26 then FIRST_LETTERS[v]
                             else if v < 52 then NEXT_LETTERS[v - 26]
                             else if v < 62 then DIGITS[v - 52]
                             else if a == UrlFilenameSafe then "-_"[v - 62]
                             else "+/"[v - 62]) as int
  {
  }

  /** The six bits of a character, and the alphabet that is known from then on. */
  function ValueOf(a: Alphabet, c: Byte): Option<(Sextet, Alphabet)> {
    var ch := c as char;
    if 'A' <= ch <= 'Z' then Some((c - 'A' as int, a))
    else if 'a' <= ch <= 'z' then Some((c - 'a' as int + 26, a))
    else if '0' <= ch <= '9' then Some((c - '0' as int + 52, a))
    else match a
      case Standard => if ch == '+' then Some((62, a)) else if ch == '/' then Some((63, a)) else None
      case UrlFilenameSafe => if ch == '-' then Some((62, a)) else if ch == '_' then Some((63, a)) else None
      case Auto =>
        if ch == '+' then Some((62, Standard)) else if ch == '/' then Some((63, Standard))
        else if ch == '-' then Some((62, UrlFilenameSafe)) else if ch == '_' then Some((63, UrlFilenameSafe))
        else None
  }

  /** What is written with the one alphabet can be read with the other. */
  predicate Reads(a: Alphabet, written: Alphabet) {
    a == Auto || (a == UrlFilenameSafe <==> written == UrlFilenameSafe)
  }

  lemma LetterRead(a: Alphabet, written: Alphabet, v: Sextet)
    requires Reads(a, written)
    ensures var r := ValueOf(a, Letter(written, v));
            r.Some? && r.value.0 == v && Reads(r.value.1, written) && Letter(written, v) != PAD
  {
  }

  // ---------------------------------------------------------------------------------------------
  // Encoding

  /** The letters for the first three bytes, and padding for those that are missing. */
  function Group(s: seq<Byte>, a: Alphabet): (r: seq<Byte>)
    requires s != []
    ensures |r| == 4
  {
    var i0 := s[0];
    if |s| == 1 then [Letter(a, i0 / 4), Letter(a, i0 % 4 * 16), PAD, PAD]
    else
      var i1 := s[1];
      if |s| == 2 then [Letter(a, i0 / 4), Letter(a, i0 % 4 * 16 + i1 / 16), Letter(a, i1 % 16 * 4), PAD]
      else
        var i2 := s[2];
        [Letter(a, i0 / 4), Letter(a, i0 % 4 * 16 + i1 / 16), Letter(a, i1 % 16 * 4 + i2 / 64), Letter(a, i2 % 64)]
  }

  function Encoded(s: seq<Byte>, a: Alphabet): (r: seq<Byte>)
    ensures |r| == RequiredEncodeSize(|s|)
  {
    if s == [] then []
    else if |s| <= 3 then Group(s, a)
    else
      OneGroupMore(|s|);
      Group(s, a) + Encoded(s[3..], a)
  }

  lemma OneGroupMore(size: nat)
    requires size >= 3
    ensures RequiredEncodeSize(size) == 4 + RequiredEncodeSize(size - 3)
  {
    assert size / 3 == (size - 3) / 3 + 1 && size % 3 == (size - 3) % 3;
  }

  function RequiredEncodeSize(size: nat): nat {
    (size / 3 + if size % 3 > 0 then 1 else 0) * 4
  }

  function MaxDecodeSize(size: nat): nat {
    (size / 4 + if size % 4 > 0 then 1 else 0) * 3
  }

  /** Encodes up to three bytes from `start` on. */
  method EncodeGroup(s: seq<Byte>, start: nat, a: Alphabet) returns (out: seq<Byte>, pos: nat)
    requires start < |s|
    ensures out == Group(s[start..], a) && pos == if |s| - start < 3 then |s| else start + 3
  {
    var i0 := s[start];
    out, pos := [Letter(a, i0 / 4)], start + 1;
    if pos == |s| {
      out := out + [Letter(a, i0 % 4 * 16)];
      out := out + [PAD];
      out := out + [PAD];
      return;
    }
    var i1 := s[pos];
    pos := pos + 1;
    out := out + [Letter(a, i0 % 4 * 16 + i1 / 16)];
    if pos == |s| {
      out := out + [Letter(a, i1 % 16 * 4)];
      out := out + [PAD];
      return;
    }
    var i2 := s[pos];
    pos := pos + 1;
    out := out + [Letter(a, i1 % 16 * 4 + i2 / 64)];
    out := out + [Letter(a, i2 % 64)];
  }

  method Encode(s: seq<Byte>, a: Alphabet) returns (out: seq<Byte>)
    ensures out == Encoded(s, a)
  {
    out := [];
    var pos := 0;
    assert s[0..] == s;
    while pos < |s|
      invariant pos <= |s| && Encoded(s, a) == out + Encoded(s[pos..], a)
      decreases |s| - pos
    {
      var group, next := EncodeGroup(s, pos, a);
      EncodedFrom(s, a, pos, next, out, group);
      out := out + group;
      pos := next;
    }
  }

  lemma EncodedFrom(s: seq<Byte>, a: Alphabet, pos: nat, next: nat, out: seq<Byte>, group: seq<Byte>)
    requires pos < |s| && next == (if |s| - pos < 3 then |s| else pos + 3) && group == Group(s[pos..], a)
    ensures out + Encoded(s[pos..], a) == out + group + Encoded(s[next..], a)
  {
    var rest := s[pos..];
    if |rest| > 3 {
      assert rest[3..] == s[next..];
    } else {
      assert s[next..] == [] && Encoded(s[next..], a) == [];
      assert Encoded(rest, a) == group;
      assert group + [] == group;
    }
  }

  // ---------------------------------------------------------------------------------------------
  // Decoding

  /** Eight bits: as many as are left of the last character, and the first ones of the next. */
  function Joined(bits: nat, last: Sextet, part: Sextet): Byte
    requires bits == 2 || bits == 4 || bits == 6
  {
    if bits == 6 then last * 4 + part / 16
    else if bits == 4 then last % 16 * 16 + part / 4
    else last % 4 * 64 + part
  }

  predicate AllPadding(s: seq<Byte>) {
    forall i :: 0 <= i < |s| ==> s[i] == PAD
  }

  /** The bytes in a text, when `bits` bits of the last character are left. */
  function DecodeFrom(s: seq<Byte>, a: Alphabet, behavior: Behavior, bits: nat, last: Sextet)
    : (r: Result<seq<Byte>, Base64Error>)
    requires bits == 0 || bits == 2 || bits == 4 || bits == 6
    ensures r.Success? ==> 8 * |r.value| <= 6 * |s| + bits
  {
    if s == [] then Success([])
    else if s[0] == PAD then PaddingOnly(s[1..], behavior)
    else match ValueOf(a, s[0])
      case None => Failure(InvalidCharacter)
      case Some((part, a')) =>
        if bits == 0 then DecodeFrom(s[1..], a', behavior, 6, part)
        else
          var rest :- DecodeFrom(s[1..], a', behavior, bits - 2, part);
          Success([Joined(bits, last, part)] + rest)
  }

  function Decoded(s: seq<Byte>, a: Alphabet, behavior: Behavior): Result<seq<Byte>, Base64Error> {
    DecodeFrom(s, a, behavior, 0, 0)
  }

  /** A decoded text is never longer than announced. */
  lemma DecodedSize(s: seq<Byte>, a: Alphabet, behavior: Behavior)
    ensures Decoded(s, a, behavior).Success? ==> |Decoded(s, a, behavior).value| <= MaxDecodeSize(|s|)
    ensures MaxDecodeSize(|s|) == (|s| + 3) / 4 * 3 && RequiredEncodeSize(|s|) == (|s| + 2) / 3 * 4
  {
  }

  function Prepend(out: seq<Byte>, r: Result<seq<Byte>, Base64Error>): Result<seq<Byte>, Base64Error> {
    match r
    case Success(bytes) => Success(out + bytes)
    case Failure(e) => Failure(e)
  }

  lemma PrependNothing(r: Result<seq<Byte>, Base64Error>)
    ensures Prepend([], r) == r
  {
    assert r.Success? ==> [] + r.value == r.value;
  }

  lemma AtEnd(out: seq<Byte>)
    ensures Prepend(out, Success([])) == Success(out)
  {
    assert out + [] == out;
  }

  /** What is left of a text after its first padding. */
  function PaddingOnly(s: seq<Byte>, behavior: Behavior): Result<seq<Byte>, Base64Error> {
    if behavior != Loose && !AllPadding(s) then Failure(InvalidCharacter) else Success([])
  }

  /** The whole is what has been written and what decoding the rest gives. */
  ghost predicate Going(whole: Result<seq<Byte>, Base64Error>, written: seq<Byte>, rest: seq<Byte>,
                        a: Alphabet, behavior: Behavior, bits: nat, last: Sextet) {
    (bits == 0 || bits == 2 || bits == 4 || bits == 6) &&
      whole == Prepend(written, DecodeFrom(rest, a, behavior, bits, last))
  }

  lemma GoOn(whole: Result<seq<Byte>, Base64Error>, written: seq<Byte>, rest: seq<Byte>, a: Alphabet,
             behavior: Behavior, bits: nat, last: Sextet)
    requires Going(whole, written, rest, a, behavior, bits, last) && rest != [] && rest[0] != PAD
    ensures match ValueOf(a, rest[0])
            case None => whole == Failure(InvalidCharacter)
            case Some((part, a')) =>
              if bits == 0 then Going(whole, written, rest[1..], a', behavior, 6, part)
              else Going(whole, written + [Joined(bits, last, part)], rest[1..], a', behavior, bits - 2, part)
  {
    match ValueOf(a, rest[0])
    case None =>
    case Some((part, a')) =>
      if bits > 0 {
        var r := DecodeFrom(rest[1..], a', behavior, bits - 2, part);
        if r.Success? {
          assert written + ([Joined(bits, last, part)] + r.value) == written + [Joined(bits, last, part)] + r.value;
        }
      }
  }

  lemma OutBelow(out: nat, i: nat, bits: nat, n: nat)
    requires 6 * i == 8 * out + bits + 6 && bits >= 2 && i <= n
    ensures out < i && out < MaxDecodeSize(n)
  {
  }

  /** Nothing but padding from `i` on. */
  method CheckPadding(src: array<Byte>, i: nat, n: nat) returns (ok: bool)
    requires i <= n <= src.Length
    ensures ok <==> AllPadding(src[i..n])
  {
    for k := i to n
      invariant forall j :: i <= j < k ==> src[j] == PAD
    {
      if src[k] != PAD {
        assert src[i..n][k - i] == src[k];
        return false;
      }
    }
    return true;
  }

  /** The rest is at its end, or at padding. */
  ghost predicate Stopped(whole: Result<seq<Byte>, Base64Error>, written: seq<Byte>, rest: seq<Byte>,
                          behavior: Behavior) {
    if rest == [] then whole == Success(written)
    else rest[0] == PAD && whole == Prepend(written, PaddingOnly(rest[1..], behavior))
  }

  lemma Stop(whole: Result<seq<Byte>, Base64Error>, written: seq<Byte>, rest: seq<Byte>, a: Alphabet,
             behavior: Behavior, bits: nat, last: Sextet)
    requires Going(whole, written, rest, a, behavior, bits, last) && (rest == [] || rest[0] == PAD)
    ensures Stopped(whole, written, rest, behavior)
  {
    AtEnd(written);
  }

  method PutByte(dst: array<Byte>, out: nat, b: Byte)
    requires out < dst.Length
    modifies dst
    ensures dst[..out + 1] == old(dst[..out]) + [b]
    ensures forall k :: 0 <= k < dst.Length && k != out ==> dst[k] == old(dst[k])
  {
    dst[out] := b;
  }

  /** Decodes one letter; when there are enough bits a byte is put. */
  method DecodeLetter(c: Byte, dst: array<Byte>, out: nat, a: Alphabet, behavior: Behavior, bits: nat, last: Sextet,
                      ghost whole: Result<seq<Byte>, Base64Error>, ghost rest: seq<Byte>)
    returns (found: bool, a': Alphabet, bits': nat, last': Sextet, out': nat)
    requires rest != [] && rest[0] == c != PAD && out <= dst.Length && (bits > 0 ==> out < dst.Length)
    requires Going(whole, dst[..out], rest, a, behavior, bits, last)
    modifies dst
    ensures !found ==> whole == Failure(InvalidCharacter)
    ensures out <= out' <= dst.Length && forall k :: 0 <= k < dst.Length && k != out ==> dst[k] == old(dst[k])
    ensures out' == out ==> dst[..] == old(dst[..])
    ensures found ==> 8 * out' + bits' == 8 * out + bits + 6
    ensures found ==> Going(whole, dst[..out'], rest[1..], a', behavior, bits', last')
  {
    GoOn(whole, dst[..out], rest, a, behavior, bits, last);
    a', bits', last', out' := a, bits, last, out;
    var part := ValueOf(a, c);
    if part.None? {
      return false, a, bits, last, out;
    }
    if bits + 6 >= 8 {
      PutByte(dst, out, Joined(bits, last, part.value.0));
      out' := out + 1;
      bits' := bits - 2;
    } else {
      bits' := bits + 6;
    }
    found, a', last' := true, part.value.1, part.value.0;
  }

  /** Decodes up to the end or to the first padding. */
  method DecodeLetters(src: array<Byte>, n: nat, dst: array<Byte>, alphabet: Alphabet, behavior: Behavior)
    returns (found: bool, i: nat, out: nat)
    requires n <= src.Length && (dst == src || MaxDecodeSize(n) <= dst.Length)
    modifies dst
    ensures !found ==> Decoded(old(src[..n]), alphabet, behavior) == Failure(InvalidCharacter)
    ensures i <= n && out <= dst.Length
    ensures forall k :: i <= k < n ==> src[k] == old(src[k])
    ensures forall k :: out <= k < dst.Length ==> dst[k] == old(dst[k])
    ensures found ==> Stopped(Decoded(old(src[..n]), alphabet, behavior), dst[..out], old(src[..n])[i..], behavior)
  {
    ghost var text, whole := src[..n], Decoded(src[..n], alphabet, behavior);
    var a, last: Sextet, bits: nat := alphabet, 0, 0;
    i, out := 0, 0;
    assert text[0..] == text && dst[..0] == [];
    PrependNothing(whole);
    while i < n && src[i] != PAD
      invariant i <= n && 6 * i == 8 * out + bits
      invariant out <= dst.Length
      invariant forall k :: i <= k < n ==> src[k] == text[k]
      invariant forall k :: out <= k < dst.Length ==> dst[k] == old(dst[k])
      invariant Going(whole, dst[..out], text[i..], a, behavior, bits, last)
      decreases n - i
    {
      ghost var rest := text[i..];
      if bits > 0 {
        OutBelow(out, i + 1, bits, n);
      }
      assert rest[1..] == text[i + 1..];
      found, a, bits, last, out := DecodeLetter(src[i], dst, out, a, behavior, bits, last, whole, rest);
      i := i + 1;
      if !found {
        return;
      }
    }
    Stop(whole, dst[..out], text[i..], a, behavior, bits, last);
    found := true;
  }

  /**
    Decodes the first `n` bytes of `src` to `dst`, which may be the same array: what is written over
    then has been read before.
   */
  method Decode(src: array<Byte>, n: nat, dst: array<Byte>, alphabet: Alphabet, behavior: Behavior)
    returns (r: Result<nat, Base64Error>)
    requires n <= src.Length && (dst == src || MaxDecodeSize(n) <= dst.Length)
    modifies dst
    ensures match Decoded(old(src[..n]), alphabet, behavior)
            case Success(bytes) => r == Success(|bytes|) && |bytes| <= dst.Length && dst[..|bytes|] == bytes
            case Failure(e) => r == Failure(e)
    ensures r.Success? ==> forall k :: r.value <= k < dst.Length ==> dst[k] == old(dst[k])
  {
    ghost var text := src[..n];
    var found, i, out := DecodeLetters(src, n, dst, alphabet, behavior);
    if !found {
      return Failure(InvalidCharacter);
    }
    if i < n {
      var ok := true;
      if behavior != Loose {
        ok := CheckPadding(src, i + 1, n);
        assert src[i + 1..n] == text[i..][1..];
      }
      if !ok {
        return Failure(InvalidCharacter);
      }
      AtEnd(dst[..out]);
    }
    r := Success(out);
  }

  // ---------------------------------------------------------------------------------------------
  // Round trip

  lemma ReadLetter(v: Sextet, rest: seq<Byte>, a: Alphabet, written: Alphabet, behavior: Behavior, bits: nat,
                   last: Sextet) returns (a': Alphabet)
    requires Reads(a, written) && (bits == 0 || bits == 2 || bits == 4 || bits == 6)
    ensures Reads(a', written)
    ensures DecodeFrom([Letter(written, v)] + rest, a, behavior, bits, last) ==
            if bits == 0 then DecodeFrom(rest, a', behavior, 6, v)
            else Prepend([Joined(bits, last, v)], DecodeFrom(rest, a', behavior, bits - 2, v))
  {
    LetterRead(a, written, v);
    a' := ValueOf(a, Letter(written, v)).value.1;
    var s := [Letter(written, v)] + rest;
    assert s[1..] == rest;
  }

  lemma PrependTwice(a: seq<Byte>, b: seq<Byte>, r: Result<seq<Byte>, Base64Error>)
    ensures Prepend(a, Prepend(b, r)) == Prepend(a + b, r)
  {
    if r.Success? {
      assert a + (b + r.value) == a + b + r.value;
    }
  }

  /** The bits of bytes, cut into sextets and joined again. */
  lemma BitsJoined(i0: Byte, i1: Byte, i2: Byte)
    ensures Joined(6, i0 / 4, i0 % 4 * 16 + i1 / 16) == i0
    ensures Joined(4, i0 % 4 * 16 + i1 / 16, i1 % 16 * 4 + i2 / 64) == i1
    ensures Joined(2, i1 % 16 * 4 + i2 / 64, i2 % 64) == i2
  {
  }

  function SextetOf(c: Byte): Sextet {
    match ValueOf(Auto, c)
    case Some((v, _)) => v
    case None => 0
  }

  /** A group writes the bits of its bytes, zeros after them, in order. */
  lemma GroupBits(s: seq<Byte>, a: Alphabet)
    requires s != []
    ensures var g, i0, i1, i2 := Group(s, a), s[0] as int, if |s| > 1 then s[1] as int else 0,
            if |s| > 2 then s[2] as int else 0;
            ((SextetOf(g[0]) * 64 + SextetOf(g[1])) * 64 + SextetOf(g[2])) * 64 + SextetOf(g[3]) ==
            (i0 * 256 + i1) * 256 + i2
  {
    var i0: Byte, i1: Byte, i2: Byte := s[0], if |s| > 1 then s[1] else 0, if |s| > 2 then s[2] else 0;
    SextetRead(a, i0 / 4);
    SextetRead(a, i0 % 4 * 16 + i1 / 16);
    SextetRead(a, i1 % 16 * 4 + i2 / 64);
    SextetRead(a, i2 % 64);
    assert SextetOf(PAD) == 0;
    BitsKept(i0, i1, i2);
  }

  lemma SextetRead(a: Alphabet, v: Sextet)
    ensures SextetOf(Letter(a, v)) == v
  {
    LetterRead(Auto, a, v);
  }

  lemma BitsKept(i0: Byte, i1: Byte, i2: Byte)
    ensures ((i0 / 4 * 64 + (i0 % 4 * 16 + i1 / 16)) * 64 + (i1 % 16 * 4 + i2 / 64)) * 64 + i2 % 64 ==
            (i0 as int * 256 + i1) * 256 + i2
  {
  }

  lemma GroupLetters(s: seq<Byte>, written: Alphabet, rest: seq<Byte>)
    requires |s| == 3
    ensures var i0, i1, i2 := s[0], s[1], s[2];
            Group(s, written) + rest ==
              [Letter(written, i0 / 4)] + ([Letter(written, i0 % 4 * 16 + i1 / 16)] +
                ([Letter(written, i1 % 16 * 4 + i2 / 64)] + ([Letter(written, i2 % 64)] + rest)))
  {
  }

  /** The letters of three bytes give the bytes back. */
  lemma ThreeRead(s: seq<Byte>, rest: seq<Byte>, a: Alphabet, written: Alphabet, behavior: Behavior, last: Sextet)
    returns (a': Alphabet, last': Sextet)
    requires |s| == 3 && Reads(a, written)
    ensures Reads(a', written)
    ensures DecodeFrom(Group(s, written) + rest, a, behavior, 0, last) ==
            Prepend(s, DecodeFrom(rest, a', behavior, 0, last'))
  {
    var i0, i1, i2 := s[0], s[1], s[2];
    BitsJoined(i0, i1, i2);
    GroupLetters(s, written, rest);
    a', last' := FourRead(i0 / 4, i0 % 4 * 16 + i1 / 16, i1 % 16 * 4 + i2 / 64, i2 % 64, rest, a, written, behavior,
      last);
    assert s == [i0] + ([i1] + [i2]);
  }

  lemma FourRead(v0: Sextet, v1: Sextet, v2: Sextet, v3: Sextet, rest: seq<Byte>, a: Alphabet, written: Alphabet,
                 behavior: Behavior, last: Sextet)
    returns (a': Alphabet, last': Sextet)
    requires Reads(a, written)
    ensures Reads(a', written)
    ensures DecodeFrom([Letter(written, v0)] +
            ([Letter(written, v1)] + ([Letter(written, v2)] + ([Letter(written, v3)] + rest))), a, behavior, 0, last)
            == Prepend([Joined(6, v0, v1)] + ([Joined(4, v1, v2)] + [Joined(2, v2, v3)]),
                       DecodeFrom(rest, a', behavior, 0, last'))
  {
    var tail3 := [Letter(written, v3)] + rest;
    var tail2 := [Letter(written, v2)] + tail3;
    a' := FirstTwoRead(v0, v1, tail2, a, written, behavior, last);
    a' := ReadLetter(v2, tail3, a', written, behavior, 4, v1);
    a' := ReadLetter(v3, rest, a', written, behavior, 2, v2);
    last' := v3;
    var r := DecodeFrom(rest, a', behavior, 0, v3);
    PrependTwice([Joined(4, v1, v2)], [Joined(2, v2, v3)], r);
    PrependTwice([Joined(6, v0, v1)], [Joined(4, v1, v2)] + [Joined(2, v2, v3)], r);
  }

  lemma FirstTwoRead(v0: Sextet, v1: Sextet, rest: seq<Byte>, a: Alphabet, written: Alphabet, behavior: Behavior,
                     last: Sextet)
    returns (a': Alphabet)
    requires Reads(a, written)
    ensures Reads(a', written)
    ensures DecodeFrom([Letter(written, v0)] + ([Letter(written, v1)] + rest), a, behavior, 0, last) ==
            Prepend([Joined(6, v0, v1)], DecodeFrom(rest, a', behavior, 4, v1))
  {
    a' := ReadLetter(v0, [Letter(written, v1)] + rest, a, written, behavior, 0, last);
    a' := ReadLetter(v1, rest, a', written, behavior, 6, v0);
  }

  lemma PaddingRead(n: nat, a: Alphabet, behavior: Behavior, bits: nat, last: Sextet)
    requires n > 0 && (bits == 0 || bits == 2 || bits == 4 || bits == 6)
    ensures DecodeFrom(seq(n, _ => PAD), a, behavior, bits, last) == Success([])
  {
  }

  /** The letters of one byte, with padding, give the byte back. */
  lemma OneRead(s: seq<Byte>, a: Alphabet, written: Alphabet, behavior: Behavior, last: Sextet)
    requires |s| == 1 && Reads(a, written)
    ensures DecodeFrom(Group(s, written), a, behavior, 0, last) == Success(s)
  {
    var i0 := s[0];
    var v0: Sextet, v1: Sextet := i0 / 4, i0 % 4 * 16;
    BitsJoined(i0, 0, 0);
    var pads := seq(2, _ => PAD);
    assert Group(s, written) == [Letter(written, v0)] + ([Letter(written, v1)] + pads);
    var a' := ReadLetter(v0, [Letter(written, v1)] + pads, a, written, behavior, 0, last);
    a' := ReadLetter(v1, pads, a', written, behavior, 6, v0);
    PaddingRead(2, a', behavior, 4, v1);
    AtEnd([i0]);
    assert [i0] == s;
  }

  /** The letters of two bytes, with padding, give the bytes back. */
  lemma TwoRead(s: seq<Byte>, a: Alphabet, written: Alphabet, behavior: Behavior, last: Sextet)
    requires |s| == 2 && Reads(a, written)
    ensures DecodeFrom(Group(s, written), a, behavior, 0, last) == Success(s)
  {
    var i0, i1 := s[0], s[1];
    var v0: Sextet, v1: Sextet, v2: Sextet := i0 / 4, i0 % 4 * 16 + i1 / 16, i1 % 16 * 4;
    BitsJoined(i0, i1, 0);
    var pads := seq(1, _ => PAD);
    var tail := [Letter(written, v2)] + pads;
    assert Group(s, written) == [Letter(written, v0)] + ([Letter(written, v1)] + tail);
    var a' := ReadLetter(v0, [Letter(written, v1)] + tail, a, written, behavior, 0, last);
    a' := ReadLetter(v1, tail, a', written, behavior, 6, v0);
    a' := ReadLetter(v2, pads, a', written, behavior, 4, v1);
    PaddingRead(1, a', behavior, 2, v2);
    AtEnd([i1]);
    assert [i0] + [i1] == s;
  }

  /** Decoding what was encoded, with the same alphabet or one to be detected, gives the bytes back. */
  lemma {:induction false} RoundTrip(s: seq<Byte>, a: Alphabet, written: Alphabet, behavior: Behavior, last: Sextet)
    requires Reads(a, written)
    ensures DecodeFrom(Encoded(s, written), a, behavior, 0, last) == Success(s)
    decreases |s|
  {
    if |s| >= 3 {
      var first, rest := s[..3], s[3..];
      assert Group(first, written) == Group(s, written);
      assert Encoded(s, written) == Group(first, written) + Encoded(rest, written);
      var a', last' := ThreeRead(first, Encoded(rest, written), a, written, behavior, last);
      RoundTrip(rest, a', written, behavior, last');
      assert first + rest == s;
    } else if |s| == 1 {
      OneRead(s, a, written, behavior, last);
    } else if |s| == 2 {
      TwoRead(s, a, written, behavior, last);
    }
  }

  // ---------------------------------------------------------------------------------------------
  // What every text says

  /** Letters in a row. */
  function LettersOf(vs: seq<Sextet>, a: Alphabet): (s: seq<Byte>)
    ensures |s| == |vs|
  {
    seq(|vs|, i requires 0 <= i < |vs| => Letter(a, vs[i]))
  }

  /** Byte `j` of the bits of `vs`, six of each. */
  function ByteAt(vs: seq<Sextet>, j: nat): Byte
    requires 8 * (j + 1) <= 6 * |vs|
  {
    var i := j / 3 * 4 + j % 3;
    var v, w := vs[i] as int, vs[i + 1] as int;
    if j % 3 == 0 then v * 4 + w / 16 else if j % 3 == 1 then v % 16 * 16 + w / 4 else v % 4 * 64 + w
  }

  /** The whole bytes in the bits of `vs`. */
  function BytesOf(vs: seq<Sextet>): seq<Byte> {
    seq(6 * |vs| / 8, j requires 0 <= j < 6 * |vs| / 8 => ByteAt(vs, j))
  }

  lemma BytesAfterFour(vs: seq<Sextet>)
    requires |vs| >= 4
    ensures BytesOf(vs) == [Joined(6, vs[0], vs[1])] + ([Joined(4, vs[1], vs[2])] + [Joined(2, vs[2], vs[3])]) +
            BytesOf(vs[4..])
  {
    var rest := vs[4..];
    forall j: nat | 3 <= j < 6 * |vs| / 8
      ensures ByteAt(vs, j) == ByteAt(rest, j - 3)
    {
      assert j / 3 == (j - 3) / 3 + 1 && j % 3 == (j - 3) % 3;
    }
  }

  lemma LettersAfterFour(vs: seq<Sextet>, a: Alphabet, tail: seq<Byte>)
    requires |vs| >= 4
    ensures LettersOf(vs, a) + tail == [Letter(a, vs[0])] + ([Letter(a, vs[1])] + ([Letter(a, vs[2])] +
            ([Letter(a, vs[3])] + (LettersOf(vs[4..], a) + tail))))
  {
  }

  /** What follows the letters: the end, or padding, after which only padding may come unless anything may. */
  function AtTail(tail: seq<Byte>, behavior: Behavior): Result<seq<Byte>, Base64Error> {
    if tail == [] then Success([])
    else if tail[0] == 61 && (behavior == Loose || forall i :: 0 <= i < |tail| ==> tail[i] == 61) then Success([])
    else Failure(InvalidCharacter)
  }

  lemma TailRead(tail: seq<Byte>, a: Alphabet, behavior: Behavior, bits: nat, last: Sextet)
    requires tail == [] || tail[0] == 61 || ValueOf(a, tail[0]).None?
    requires bits == 0 || bits == 2 || bits == 4 || bits == 6
    ensures DecodeFrom(tail, a, behavior, bits, last) == AtTail(tail, behavior)
  {
  }

  lemma LetterStep(v: Sextet, more: seq<Byte>, a: Alphabet, behavior: Behavior, bits: nat, last: Sextet)
    requires a != Auto && (bits == 0 || bits == 2 || bits == 4 || bits == 6)
    ensures DecodeFrom([Letter(a, v)] + more, a, behavior, bits, last) ==
            if bits == 0 then DecodeFrom(more, a, behavior, 6, v)
            else Prepend([Joined(bits, last, v)], DecodeFrom(more, a, behavior, bits - 2, v))
  {
    LetterRead(a, a, v);
    var s := [Letter(a, v)] + more;
    assert s[1..] == more;
  }

  /** Fewer than four letters. */
  lemma FewRead(vs: seq<Sextet>, tail: seq<Byte>, a: Alphabet, behavior: Behavior, last: Sextet)
    requires |vs| < 4 && a != Auto && (tail == [] || tail[0] == 61 || ValueOf(a, tail[0]).None?)
    ensures DecodeFrom(LettersOf(vs, a) + tail, a, behavior, 0, last) == Prepend(BytesOf(vs), AtTail(tail, behavior))
  {
    if vs == [] {
      assert LettersOf(vs, a) + tail == tail;
      TailRead(tail, a, behavior, 0, last);
      PrependNothing(AtTail(tail, behavior));
    } else if |vs| == 1 {
      assert LettersOf(vs, a) + tail == [Letter(a, vs[0])] + tail && BytesOf(vs) == [];
      LetterStep(vs[0], tail, a, behavior, 0, last);
      TailRead(tail, a, behavior, 6, vs[0]);
      PrependNothing(AtTail(tail, behavior));
    } else if |vs| == 2 {
      assert LettersOf(vs, a) + tail == [Letter(a, vs[0])] + ([Letter(a, vs[1])] + tail);
      assert BytesOf(vs) == [Joined(6, vs[0], vs[1])];
      TwoSteps(vs[0], vs[1], tail, a, behavior, last);
      TailRead(tail, a, behavior, 4, vs[1]);
    } else {
      assert LettersOf(vs, a) + tail == [Letter(a, vs[0])] + ([Letter(a, vs[1])] + ([Letter(a, vs[2])] + tail));
      assert BytesOf(vs) == [Joined(6, vs[0], vs[1])] + [Joined(4, vs[1], vs[2])];
      ThreeSteps(vs[0], vs[1], vs[2], tail, a, behavior, last);
      TailRead(tail, a, behavior, 2, vs[2]);
    }
  }

  lemma TwoSteps(v0: Sextet, v1: Sextet, rest: seq<Byte>, a: Alphabet, behavior: Behavior, last: Sextet)
    requires a != Auto
    ensures DecodeFrom([Letter(a, v0)] + ([Letter(a, v1)] + rest), a, behavior, 0, last) ==
            Prepend([Joined(6, v0, v1)], DecodeFrom(rest, a, behavior, 4, v1))
  {
    LetterStep(v0, [Letter(a, v1)] + rest, a, behavior, 0, last);
    LetterStep(v1, rest, a, behavior, 6, v0);
  }

  lemma ThreeSteps(v0: Sextet, v1: Sextet, v2: Sextet, rest: seq<Byte>, a: Alphabet, behavior: Behavior, last: Sextet)
    requires a != Auto
    ensures DecodeFrom([Letter(a, v0)] + ([Letter(a, v1)] + ([Letter(a, v2)] + rest)), a, behavior, 0, last) ==
            Prepend([Joined(6, v0, v1)] + [Joined(4, v1, v2)], DecodeFrom(rest, a, behavior, 2, v2))
  {
    TwoSteps(v0, v1, [Letter(a, v2)] + rest, a, behavior, last);
    LetterStep(v2, rest, a, behavior, 4, v1);
    PrependTwice([Joined(6, v0, v1)], [Joined(4, v1, v2)], DecodeFrom(rest, a, behavior, 2, v2));
  }

  lemma FourSteps(v0: Sextet, v1: Sextet, v2: Sextet, v3: Sextet, rest: seq<Byte>, a: Alphabet, behavior: Behavior,
                  last: Sextet)
    requires a != Auto
    ensures DecodeFrom([Letter(a, v0)] + ([Letter(a, v1)] + ([Letter(a, v2)] + ([Letter(a, v3)] + rest))), a, behavior,
              0, last) ==
            Prepend([Joined(6, v0, v1)] + ([Joined(4, v1, v2)] + [Joined(2, v2, v3)]),
              DecodeFrom(rest, a, behavior, 0, v3))
  {
    var more, r := [Letter(a, v3)] + rest, DecodeFrom(rest, a, behavior, 0, v3);
    ThreeSteps(v0, v1, v2, more, a, behavior, last);
    LetterStep(v3, rest, a, behavior, 2, v2);
    PrependTwice([Joined(6, v0, v1)] + [Joined(4, v1, v2)], [Joined(2, v2, v3)], r);
    assert [Joined(6, v0, v1)] + [Joined(4, v1, v2)] + [Joined(2, v2, v3)] ==
           [Joined(6, v0, v1)] + ([Joined(4, v1, v2)] + [Joined(2, v2, v3)]);
  }

  /**
    Letters are read as the bytes of their bits, bits that make up no byte being dropped; then the text
    must end or go on with padding.
   */
  lemma {:induction false} TextRead(vs: seq<Sextet>, tail: seq<Byte>, a: Alphabet, behavior: Behavior, last: Sextet)
    requires a != Auto && (tail == [] || tail[0] == 61 || ValueOf(a, tail[0]).None?)
    ensures DecodeFrom(LettersOf(vs, a) + tail, a, behavior, 0, last) == Prepend(BytesOf(vs), AtTail(tail, behavior))
    decreases |vs|
  {
    if |vs| < 4 {
      FewRead(vs, tail, a, behavior, last);
    } else {
      var rest := LettersOf(vs[4..], a) + tail;
      LettersAfterFour(vs, a, tail);
      FourSteps(vs[0], vs[1], vs[2], vs[3], rest, a, behavior, last);
      TextRead(vs[4..], tail, a, behavior, vs[3]);
      BytesAfterFour(vs);
      PrependTwice([Joined(6, vs[0], vs[1])] + ([Joined(4, vs[1], vs[2])] + [Joined(2, vs[2], vs[3])]),
        BytesOf(vs[4..]), AtTail(tail, behavior));
    }
  }

  lemma ValueLetter(a: Alphabet, c: Byte)
    requires a != Auto && ValueOf(a, c).Some?
    ensures Letter(a, ValueOf(a, c).value.0) == c
  {
  }

  /** Every text is letters of the alphabet, and then its end, padding or another character. */
  lemma {:induction false} LettersFirst(s: seq<Byte>, a: Alphabet) returns (vs: seq<Sextet>, tail: seq<Byte>)
    requires a != Auto
    ensures s == LettersOf(vs, a) + tail && (tail == [] || tail[0] == 61 || forall v: Sextet :: Letter(a, v) != tail[0])
    decreases |s|
  {
    if s == [] || ValueOf(a, s[0]).None? {
      vs, tail := [], s;
      forall v: Sextet | s != []
        ensures Letter(a, v) != s[0]
      {
        LetterRead(a, a, v);
      }
    } else {
      var v := ValueOf(a, s[0]).value.0;
      ValueLetter(a, s[0]);
      var others: seq<Sextet>;
      others, tail := LettersFirst(s[1..], a);
      vs := [v] + others;
      assert LettersOf(vs, a) == [s[0]] + LettersOf(others, a);
    }
  }

  /**
    What a text says: the bytes of the letters it begins with, if it ends after them or goes on with
    padding, and an error otherwise.
   */
  lemma DecodedText(vs: seq<Sextet>, tail: seq<Byte>, a: Alphabet, behavior: Behavior)
    requires a != Auto && (tail == [] || tail[0] == 61 || forall v: Sextet :: Letter(a, v) != tail[0])
    ensures Decoded(LettersOf(vs, a) + tail, a, behavior) ==
            if AtTail(tail, behavior).Success? then Success(BytesOf(vs)) else Failure(InvalidCharacter)
  {
    if tail != [] && ValueOf(a, tail[0]).Some? {
      ValueLetter(a, tail[0]);
    }
    TextRead(vs, tail, a, behavior, 0);
    AtEnd(BytesOf(vs));
  }

  lemma OneError(r: Result<seq<Byte>, Base64Error>)
    ensures r.Success? || r == Failure(InvalidCharacter)
  {
    if r.Failure? {
      assert r.error.InvalidCharacter?;
    }
  }

  /** A text is read with the alphabet that can read it, if one of the two can. */
  lemma {:induction false} AutoReads(s: seq<Byte>, behavior: Behavior, bits: nat, last: Sextet)
    requires bits == 0 || bits == 2 || bits == 4 || bits == 6
    ensures DecodeFrom(s, Auto, behavior, bits, last) ==
            if DecodeFrom(s, Standard, behavior, bits, last).Success? then DecodeFrom(s, Standard, behavior, bits, last)
            else DecodeFrom(s, UrlFilenameSafe, behavior, bits, last)
    decreases |s|
  {
    OneError(DecodeFrom(s, Standard, behavior, bits, last));
    OneError(DecodeFrom(s, UrlFilenameSafe, behavior, bits, last));
    if s != [] && s[0] != PAD && ValueOf(Auto, s[0]).Some? && ValueOf(Auto, s[0]).value.1 == Auto {
      var v := ValueOf(Auto, s[0]).value.0;
      ReadOn(s, Auto, v, behavior, bits, last);
      ReadOn(s, Standard, v, behavior, bits, last);
      ReadOn(s, UrlFilenameSafe, v, behavior, bits, last);
      AutoReads(s[1..], behavior, if bits == 0 then 6 else bits - 2, v);
    }
  }

  lemma ReadOn(s: seq<Byte>, a: Alphabet, v: Sextet, behavior: Behavior, bits: nat, last: Sextet)
    requires s != [] && s[0] != PAD && ValueOf(a, s[0]) == Some((v, a))
    requires bits == 0 || bits == 2 || bits == 4 || bits == 6
    ensures var rest := DecodeFrom(s[1..], a, behavior, if bits == 0 then 6 else bits - 2, v);
            DecodeFrom(s, a, behavior, bits, last) ==
            Prepend(if bits == 0 then [] else [Joined(bits, last, v)], rest)
  {
    PrependNothing(DecodeFrom(s[1..], a, behavior, if bits == 0 then 6 else bits - 2, v));
  }

  /** Padding fills the last group up, and stands nowhere else. */
  lemma {:induction false} EncodedPadding(s: seq<Byte>, a: Alphabet)
    ensures var r, pads := Encoded(s, a), if |s| % 3 == 0 then 0 else 3 - |s| % 3;
            && pads <= |r|
            && (forall i :: 0 <= i < |r| - pads ==> r[i] != 61)
            && (forall i :: |r| - pads <= i < |r| ==> r[i] == 61)
    decreases |s|
  {
    forall v: Sextet
      ensures Letter(a, v) != 61
    {
      LetterRead(a, a, v);
    }
    if |s| > 3 {
      OneGroupMore(|s|);
      EncodedPadding(s[3..], a);
      assert |s| % 3 == (|s| - 3) % 3;
      var first, rest := Group(s, a), Encoded(s[3..], a);
      assert forall i :: 0 <= i < 4 ==> first[i] != 61;
      assert forall i :: 4 <= i < 4 + |rest| ==> Encoded(s, a)[i] == rest[i - 4];
    }
  }
}
