/** Characters and text as the C library sees them. */
module Bytes {

  /** A C `char`, read as an unsigned octet. */
  type Byte = c: char | c as int < 256 witness 'a'

  /** The characters of a string_t up to its length; the terminating NUL is not part of it. */
  type Text = seq<Byte>

  const NUL: Byte := '\0'
  const LF: Byte := '\n'
  const CR: Byte := '\r'

  datatype Option<+T> = None | Some(value: T)

  /** The status a Natural C function returns: 0 or -1. */
  datatype Status = Success | Failure

  /** What strlen(3) and strcmp(3) see of a buffer: everything before the first NUL. */
  function CString(s: Text): (r: Text)
    ensures NUL !in r
    ensures NUL !in s ==> r == s
    ensures r <= s && (r == s || s[|r|] == NUL)
  {
    if s == [] || s[0] == NUL then [] else [s[0]] + CString(s[1..])
  }

  /** A C string ends in front of its first octet 0. */
  lemma {:induction false} CStringEnds(x: Text, y: Text)
    requires '\0' !in x
    ensures CString(x) == x && CString(x + ['\0'] + y) == x
  {
    if x == [] {
      assert x + ['\0'] + y == ['\0'] + y;
    } else {
      CStringEnds(x[1..], y);
      assert (x + ['\0'] + y)[1..] == x[1..] + ['\0'] + y;
    }
  }
}
