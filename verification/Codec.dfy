/** The percent-encoding of string.c. */
module Codec {
  import opened Bytes

  /** str_putc, to which a NUL is an empty string. */
  function Putc(s: Text, c: Byte): Text {
    if c == NUL then s else s + [c]
  }

  /** isalnum(3) in the C locale. */
  predicate IsAlnum(c: Byte) {
    'a' <= c <= 'z' || 'A' <= c <= 'Z' || '0' <= c <= '9'
  }

  predicate Kept(c: Byte) {
    IsAlnum(c) || c in "/_.-~"
  }

  function HexDigit(n: nat): Byte
    requires n < 16
  {
    if n < 10 then ('0' as int + n) as char else ('a' as int + n - 10) as char
  }

  function HexValue(c: Byte): (r: Option<nat>)
    ensures r.Some? ==> r.value < 16
  {
    if '0' <= c <= '9' then Some(c as int - '0' as int)
    else if 'a' <= c <= 'f' then Some(c as int - 'a' as int + 10)
    else if 'A' <= c <= 'F' then Some(c as int - 'A' as int + 10)
    else None
  }

  /** One character of str_escape: itself, or the two lower-case hexadecimal digits of its code.
      A NUL passes for a kept character, because strchr(3) finds it behind the set, and is lost. */
  function EscapeByte(c: Byte): Text {
    if c == NUL then []
    else if Kept(c) then [c] else ['%', HexDigit(c as int / 16), HexDigit(c as int % 16)]
  }

  function Escape(s: Text): Text {
    if s == [] then [] else EscapeByte(s[0]) + Escape(s[1..])
  }

  /** A '%' with two hexadecimal digits, as sscanf(3) reads it. */
  predicate CodeAt(s: Text, i: nat) {
    i + 2 < |s| && s[i] == '%' && HexValue(s[i + 1]).Some? && HexValue(s[i + 2]).Some?
  }

  function Code(s: Text, i: nat): Byte
    requires CodeAt(s, i)
  {
    (16 * HexValue(s[i + 1]).value + HexValue(s[i + 2]).value) as char
  }

  function Unescape(s: Text): Text {
    if s == [] then []
    else if CodeAt(s, 0) then Putc([], Code(s, 0)) + Unescape(s[3..])
    else [s[0]] + Unescape(s[1..])
  }

  /** str_escape. */
  method StrEscape(src: Text) returns (dest: Text)
    ensures dest == Escape(src)
  {
    dest := [];
    if |src| == 0 {
      return;
    }
    var buf: Text, i := [], 0;
    while i < |src|
      invariant 0 <= i <= |src| && buf + Escape(src[i..]) == Escape(src)
    {
      buf := buf + EscapeByte(src[i]);
      i := i + 1;
    }
    dest := buf;
  }

  lemma UnescapeFrom(s: Text, i: nat)
    requires i < |s|
    ensures Unescape(s[i..]) ==
            if CodeAt(s, i) then Putc([], Code(s, i)) + Unescape(s[i + 3..])
            else [s[i]] + Unescape(s[i + 1..])
  {
    var rest := s[i..];
    assert CodeAt(rest, 0) == CodeAt(s, i) && rest[1..] == s[i + 1..];
    if CodeAt(s, i) {
      assert Code(rest, 0) == Code(s, i) && rest[3..] == s[i + 3..];
    }
  }

  lemma PutcOn(buf: Text, c: Byte, rest: Text)
    ensures buf + (Putc([], c) + rest) == Putc(buf, c) + rest
    ensures buf + ([c] + rest) == (buf + [c]) + rest
  {
    assert [] + [c] == [c];
  }

  lemma UnescapeOn(s: Text, i: nat, buf: Text)
    requires i < |s|
    ensures CodeAt(s, i) ==> buf + Unescape(s[i..]) == Putc(buf, Code(s, i)) + Unescape(s[i + 3..])
    ensures !CodeAt(s, i) ==> buf + Unescape(s[i..]) == (buf + [s[i]]) + Unescape(s[i + 1..])
  {
    UnescapeFrom(s, i);
    if CodeAt(s, i) {
      PutcOn(buf, Code(s, i), Unescape(s[i + 3..]));
    } else {
      PutcOn(buf, s[i], Unescape(s[i + 1..]));
    }
  }

  /** str_unescape, which leaves the destination alone when the source is empty, and otherwise
      reads up to the first NUL. */
  method StrUnescape(old_dest: Text, src: Text) returns (dest: Text)
    ensures dest == if src == [] then old_dest else Unescape(CString(src))
  {
    dest := old_dest;
    if |src| == 0 {
      return;
    }
    var s := CString(src);
    var buf: Text, i := [], 0;
    while i < |s|
      invariant 0 <= i <= |s| && buf + Unescape(s[i..]) == Unescape(s)
    {
      UnescapeOn(s, i, buf);
      ghost var next := if CodeAt(s, i) then i + 3 else i + 1;
      if CodeAt(s, i) {
        buf := Putc(buf, Code(s, i));
        i := i + 2;
      } else {
        buf := buf + [s[i]];
      }
      i := i + 1;
      assert i == next;
    }
    assert s[i..] == [];
    dest := buf;
  }

  // ----- the characters and digits written out

  const LOWER: Text := "0123456789abcdef"
  const UPPER: Text := "0123456789ABCDEF"

  lemma LowerDigit(n: nat)
    requires n < 16
    ensures HexDigit(n) == LOWER[n]
  {
  }

  /** Each character of an encoding: the letters, the digits and five others stand for
      themselves, a NUL is dropped, and of every other character the code is written. */
  lemma EscapeFirst(c: Byte, rest: Text)
    ensures Escape([c] + rest) ==
            (if 'A' <= c <= 'Z' || 'a' <= c <= 'z' || '0' <= c <= '9' || c in "/_.-~" then [c]
             else if c == '\0' then []
             else ['%', LOWER[c as int / 16], LOWER[c as int % 16]]) + Escape(rest)
  {
    LowerDigit(c as int / 16);
    LowerDigit(c as int % 16);
    assert ([c] + rest)[1..] == rest;
  }

  /** `c` is the hexadecimal digit `n` in lower or upper case. */
  predicate IsDigit(c: Byte, n: nat) { n < 16 && (c == LOWER[n] || c == UPPER[n]) }

  lemma DigitValue(c: Byte, n: nat)
    requires n < 16
    ensures HexValue(c) == Some(n) <==> IsDigit(c, n)
  {
  }

  /** A '%' with the two digits of a character, in either case, is that character; the code of
      NUL is nothing. */
  lemma CodeDecodes(c: Byte, hi: Byte, lo: Byte, rest: Text)
    requires IsDigit(hi, c as int / 16) && IsDigit(lo, c as int % 16)
    ensures Unescape(['%', hi, lo] + rest) == (if c == '\0' then [] else [c]) + Unescape(rest)
  {
    var t := ['%', hi, lo] + rest;
    DigitValue(hi, c as int / 16);
    DigitValue(lo, c as int % 16);
    assert t[3..] == rest;
  }

  /** Anything else is copied. */
  lemma OtherCopied(s: Text)
    requires s != []
    requires s[0] == '%' && |s| >= 3 ==>
               (exists c :: c in s[1..3] && !('0' <= c <= '9' || 'a' <= c <= 'f' || 'A' <= c <= 'F'))
    ensures Unescape(s) == [s[0]] + Unescape(s[1..])
  {
    assert |s| >= 3 ==> s[1..3] == [s[1], s[2]];
  }

  /** The same text but for the case of the digits behind a '%'. */
  ghost predicate SameButCase(t: Text, u: Text) {
    if t == [] || u == [] then t == u
    else if t[0] == '%' && |t| >= 3 then
      && |u| >= 3 && u[0] == '%'
      && (exists n :: IsDigit(t[1], n) && IsDigit(u[1], n))
      && (exists n :: IsDigit(t[2], n) && IsDigit(u[2], n))
      && SameButCase(t[3..], u[3..])
    else t[0] == u[0] && SameButCase(t[1..], u[1..])
  }

  /** Digits are told apart. */
  lemma DigitsDiffer(c: Byte, n: nat, m: nat)
    requires IsDigit(c, n) && IsDigit(c, m)
    ensures n == m
  {
    DigitValue(c, n);
    DigitValue(c, m);
  }

  lemma CaseOfCode(c: Byte, t: Text, u: Text)
    requires |t| >= 3 && t[0] == '%' && t[1] == LOWER[c as int / 16] && t[2] == LOWER[c as int % 16]
    requires SameButCase(t, u)
    ensures |u| >= 3 && u == ['%', u[1], u[2]] + u[3..] && SameButCase(t[3..], u[3..])
    ensures IsDigit(u[1], c as int / 16) && IsDigit(u[2], c as int % 16)
  {
    var hi, lo := c as int / 16, c as int % 16;
    SameDigit(t[1], u[1], hi);
    SameDigit(t[2], u[2], lo);
  }

  lemma SameDigit(c: Byte, d: Byte, n: nat)
    requires IsDigit(c, n) && exists m :: IsDigit(c, m) && IsDigit(d, m)
    ensures IsDigit(d, n)
  {
    var m :| IsDigit(c, m) && IsDigit(d, m);
    DigitsDiffer(c, n, m);
  }

  /** Decoding an encoding gives the text back whatever the case of its digits. */
  lemma {:induction false} UnescapeAnyCase(s: Text, u: Text)
    requires NUL !in s && SameButCase(Escape(s), u)
    ensures Unescape(u) == s
  {
    if s != [] {
      var t, c, rest := Escape(s), s[0], s[1..];
      assert s == [c] + rest;
      EscapeFirst(c, rest);
      if t[0] == '%' {
        CaseOfCode(c, t, u);
        assert t[3..] == Escape(rest);
        UnescapeAnyCase(rest, u[3..]);
        CodeDecodes(c, u[1], u[2], u[3..]);
      } else {
        assert t[1..] == Escape(rest);
        UnescapeAnyCase(rest, u[1..]);
        OtherCopied(u);
      }
    }
  }

  lemma EscapedByteDecodes(c: Byte, rest: Text)
    requires c != NUL
    ensures Unescape(EscapeByte(c) + rest) == [c] + Unescape(rest)
  {
    var t := EscapeByte(c) + rest;
    if Kept(c) {
      assert t[1..] == rest;
    } else {
      var hi, lo := c as int / 16, c as int % 16;
      assert t[0] == '%' && t[1] == HexDigit(hi) && t[2] == HexDigit(lo);
      assert HexValue(HexDigit(hi)) == Some(hi) && HexValue(HexDigit(lo)) == Some(lo);
      assert CodeAt(t, 0) && Code(t, 0) == c;
      assert t[3..] == rest;
    }
  }

  /** Decoding undoes encoding. */
  lemma {:induction false} UnescapeEscape(s: Text)
    requires NUL !in s
    ensures Unescape(Escape(s)) == s
  {
    if s != [] {
      EscapedByteDecodes(s[0], Escape(s[1..]));
      UnescapeEscape(s[1..]);
    }
  }

  lemma EscapeInjective(s: Text, t: Text)
    requires NUL !in s && NUL !in t && Escape(s) == Escape(t)
    ensures s == t
  {
    UnescapeEscape(s);
    UnescapeEscape(t);
  }

  predicate IsLowerHex(c: Byte) { '0' <= c <= '9' || 'a' <= c <= 'f' }

  /** Kept characters, and '%' codes in lower-case digits of bytes that are neither kept nor NUL. */
  predicate Canonical(t: Text) {
    if t == [] then true
    else if CodeAt(t, 0) then
      IsLowerHex(t[1]) && IsLowerHex(t[2]) && Code(t, 0) != NUL && !Kept(Code(t, 0)) && Canonical(t[3..])
    else Kept(t[0]) && Canonical(t[1..])
  }

  lemma EscapedByteCanonical(c: Byte, rest: Text)
    requires c != NUL && Canonical(rest)
    ensures Canonical(EscapeByte(c) + rest)
  {
    var t := EscapeByte(c) + rest;
    if Kept(c) {
      assert t[0] == c && t[1..] == rest;
    } else {
      var hi, lo := c as int / 16, c as int % 16;
      assert HexValue(HexDigit(hi)) == Some(hi) && HexValue(HexDigit(lo)) == Some(lo);
      assert t[0] == '%' && t[1] == HexDigit(hi) && t[2] == HexDigit(lo);
      assert CodeAt(t, 0) && Code(t, 0) == c;
      assert t[3..] == rest;
    }
  }

  /** Every encoding is canonical; in particular it holds no separator and no line ending. */
  lemma {:induction false} EscapeCanonical(s: Text)
    requires NUL !in s
    ensures Canonical(Escape(s))
    ensures forall c :: c in Escape(s) ==> Kept(c) || c == '%'
    ensures Escape(s) == [] <==> s == []
  {
    if s != [] {
      EscapeCanonical(s[1..]);
      EscapedByteCanonical(s[0], Escape(s[1..]));
      forall c | c in EscapeByte(s[0])
        ensures Kept(c) || c == '%'
      {
      }
    }
  }

  lemma EscapeFront(c: Byte, s: Text)
    ensures Escape([c] + s) == EscapeByte(c) + Escape(s)
  {
    assert ([c] + s)[1..] == s;
  }

  lemma HexOfDigit(c: Byte)
    requires IsLowerHex(c)
    ensures HexValue(c).Some? && HexDigit(HexValue(c).value) == c
  {
  }

  /** A lower-case code is the encoding of the byte it stands for. */
  lemma CodeIsEscaped(t: Text)
    requires CodeAt(t, 0) && IsLowerHex(t[1]) && IsLowerHex(t[2]) && Code(t, 0) != NUL && !Kept(Code(t, 0))
    ensures EscapeByte(Code(t, 0)) + t[3..] == t
  {
    HexOfDigit(t[1]);
    HexOfDigit(t[2]);
  }

  /** Every canonical text is the encoding of what it decodes to. */
  lemma {:induction false} CanonicalIsEscaped(t: Text)
    requires Canonical(t)
    ensures NUL !in Unescape(t) && Escape(Unescape(t)) == t
  {
    if t != [] {
      if CodeAt(t, 0) {
        CanonicalIsEscaped(t[3..]);
        var c := Code(t, 0);
        CodeIsEscaped(t);
        EscapeFront(c, Unescape(t[3..]));
        assert Unescape(t) == [c] + Unescape(t[3..]);
      } else {
        CanonicalIsEscaped(t[1..]);
        EscapeFront(t[0], Unescape(t[1..]));
        assert Unescape(t) == [t[0]] + Unescape(t[1..]);
      }
    }
  }

  /** Encoding undoes decoding exactly on the canonical texts. */
  lemma {:induction false} EscapeUnescapeExact(t: Text)
    ensures NUL !in Unescape(t) && Escape(Unescape(t)) == t <==> Canonical(t)
  {
    if Canonical(t) {
      CanonicalIsEscaped(t);
    }
    if NUL !in Unescape(t) {
      EscapeCanonical(Unescape(t));
    }
  }
}
