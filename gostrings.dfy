/** The small part of Go's string semantics that the directory filter relies on.
    A Go `string` is an immutable sequence of bytes, and `==`, `!=` and
    `strings.HasPrefix` compare byte by byte, so a string is modelled here as a
    `seq<byte>`. */
module GoStrings {

  newtype byte = x: int | 0 <= x < 256

  /** A Go string value: a sequence of bytes (not necessarily valid UTF-8). */
  type GoString = seq<byte>

  /** The byte of '/', the path separator the godoc namespace uses. */
  const Slash: byte := 0x2F

  /** True when every character of `s` is 7-bit ASCII. */
  predicate IsAscii(s: string) {
    forall i :: 0 <= i < |s| ==> s[i] as int < 128
  }

  /** The bytes of a Go string literal written only with ASCII characters:
      each character is one byte, equal to its code point. */
  function Ascii(s: string): (r: GoString)
    requires IsAscii(s)
    ensures |r| == |s|
    ensures forall i :: 0 <= i < |s| ==> r[i] as int == s[i] as int
  {
    if s == [] then [] else [s[0] as int as byte] + Ascii(s[1..])
  }

  /** `strings.HasPrefix(s, prefix)`: compares the two strings byte by byte
      from the front. Its contract is the definition the Go standard library
      gives: `s` is at least as long as `prefix` and its first `len(prefix)`
      bytes are `prefix`. */
  function HasPrefix(s: GoString, prefix: GoString): (r: bool)
    ensures r <==> |prefix| <= |s| && s[..|prefix|] == prefix
    decreases |prefix|
  {
    if prefix == [] then true
    else if s == [] then false
    else s[0] == prefix[0] && HasPrefix(s[1..], prefix[1..])
  }

  /** HasPrefix holds exactly when `s` is `prefix` followed by some string. */
  lemma HasPrefixIffConcat(s: GoString, prefix: GoString)
    ensures HasPrefix(s, prefix) <==> exists rest :: s == prefix + rest
  {
    if HasPrefix(s, prefix) {
      assert s == prefix + s[|prefix|..];
    } else {
      forall rest
        ensures s != prefix + rest
      {
      }
    }
  }
}
