/** Bytes, machine-word constants and the option type shared by every module. */
module Bytes {

  type byte = b: int | 0 <= b < 256

  const NUL: byte := 0
  const BACKSPACE: byte := 8
  const NEWLINE: byte := 10
  const RETURN: byte := 13
  const SPACE: byte := 32
  const COLON: byte := 58

  const UINT32_SIZE := 0x1_0000_0000
  const UINT16_SIZE := 0x1_0000

  datatype Option<+T> = None | Some(value: T)

  function Min(a: int, b: int): int {
    if a < b then a else b
  }

  /** The bytes of a C string literal. */
  function Ascii(text: string): seq<byte> {
    seq(|text|, i requires 0 <= i < |text| => text[i] as int % 256)
  }

  /** The index of the first newline, or the length. */
  function FirstBreak(s: seq<byte>): (n: nat)
    ensures n <= |s| && NEWLINE !in s[..n] && (n < |s| ==> s[n] == NEWLINE)
  {
    if s == [] || s[0] == NEWLINE then 0 else 1 + FirstBreak(s[1..])
  }

  lemma {:induction false} FirstBreakIs(s: seq<byte>, n: nat)
    requires n <= |s| && NEWLINE !in s[..n] && (n < |s| ==> s[n] == NEWLINE)
    ensures FirstBreak(s) == n
  {
    if n > 0 {
      assert s[..n][0] != NEWLINE && s[1..][..n - 1] == s[..n][1..];
      FirstBreakIs(s[1..], n - 1);
    }
  }

  lemma {:induction false} FirstBreakAtLeast(s: seq<byte>, n: nat)
    requires n <= |s| && NEWLINE !in s[..n]
    ensures n <= FirstBreak(s)
  {
    if n > 0 {
      assert s[..n][0] != NEWLINE && s[1..][..n - 1] == s[..n][1..];
      FirstBreakAtLeast(s[1..], n - 1);
    }
  }

  /** The file split at its newlines. */
  function Lines(file: seq<byte>): seq<seq<byte>> {
    var n := FirstBreak(file);
    if n == |file| then [file] else [file[..n]] + Lines(file[n + 1..])
  }

  lemma {:induction false} LinesAtNewline(s: seq<byte>, n: nat)
    requires n < |s| && NEWLINE !in s[..n] && s[n] == NEWLINE
    ensures Lines(s) == [s[..n]] + Lines(s[n + 1..])
  {
    FirstBreakIs(s, n);
    hide FirstBreak;
  }

  lemma {:induction false} LastLine(s: seq<byte>)
    requires FirstBreak(s) == |s|
    ensures Lines(s) == [s]
  {
    hide FirstBreak;
  }
}
