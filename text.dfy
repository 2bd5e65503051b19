/**
 The string operations the file-naming rules are built from: ASCII
 lower-casing (`str.lower`), `str.find` and `str.rpartition` for a
 one-character separator, and the zero-padded decimal fields that
 `time.strftime("%Y%m%d")` prints.
 */
module Text {

  predicate IsUpper(c: char) { 'A' <= c <= 'Z' }

  predicate IsLetter(c: char) { IsUpper(c) || 'a' <= c <= 'z' }

  predicate IsDigit(c: char) { '0' <= c <= '9' }

  /** Lower-cases an ASCII capital letter and leaves every other character alone. */
  function LowerChar(c: char): (r: char)
    ensures !IsUpper(r)
    ensures !IsUpper(c) ==> r == c
    ensures IsUpper(c) ==> 'a' <= r <= 'z' && r as int - 'a' as int == c as int - 'A' as int
  {
    if IsUpper(c) then (c as int - 'A' as int + 'a' as int) as char else c
  }

  /** `s.lower()`, restricted to ASCII letters. */
  function Lower(s: string): (r: string)
    ensures |r| == |s|
    ensures forall i :: 0 <= i < |s| ==> r[i] == LowerChar(s[i])
  {
    seq(|s|, i requires 0 <= i < |s| => LowerChar(s[i]))
  }

  /** Lower-casing leaves no capital letter behind, and so is idempotent. */
  lemma LowerIdempotent(s: string)
    ensures forall i :: 0 <= i < |s| ==> !IsUpper(Lower(s)[i])
    ensures Lower(Lower(s)) == Lower(s)
  {
  }

  /** A character that is not a letter occurs in `Lower(s)` exactly where it occurs in `s`. */
  lemma LowerKeeps(s: string, c: char)
    requires !IsLetter(c)
    ensures forall i :: 0 <= i < |s| ==> (Lower(s)[i] == c <==> s[i] == c)
    ensures c in Lower(s) <==> c in s
  {
    if c in s {
      var i :| 0 <= i < |s| && s[i] == c;
      assert Lower(s)[i] == c;
    }
  }

  /** `s.find(c)`: the index of the first `c` in `s`, or -1 when there is none. */
  function Find(s: string, c: char): (r: int)
    ensures -1 <= r < |s|
    ensures r == -1 <==> c !in s
    ensures 0 <= r ==> s[r] == c && c !in s[..r]
  {
    if s == [] then -1
    else if s[0] == c then 0
    else
      var k := Find(s[1..], c);
      if k < 0 then -1 else k + 1
  }

  /** The index of the last `c` in `s`, or -1 when there is none (`s.rfind(c)`). */
  function LastIndex(s: string, c: char): (r: int)
    ensures -1 <= r < |s|
    ensures r == -1 <==> c !in s
    ensures 0 <= r ==> s[r] == c && c !in s[r + 1..]
  {
    if s == [] then -1
    else if s[|s| - 1] == c then |s| - 1
    else
      assert s == s[..|s| - 1] + [s[|s| - 1]];
      LastIndex(s[..|s| - 1], c)
  }

  /**
   `s.rpartition(c)`: the text before the last `c`, the separator itself and
   the text after it; when `c` does not occur, `("", "", s)`.
   */
  function RPartition(s: string, c: char): (r: (string, string, string))
    ensures r.0 + r.1 + r.2 == s
    ensures c !in r.2
    ensures c in s ==> r.1 == [c]
    ensures c !in s ==> r == ("", "", s)
  {
    var k := LastIndex(s, c);
    if k < 0 then ("", "", s)
    else
      assert s == s[..k] + [c] + s[k + 1..];
      (s[..k], [c], s[k + 1..])
  }

  /**
   The split `RPartition` makes is the only one with its shape: if `s` is
   `head + [c] + tail` with no `c` in `tail`, those are its three parts.
   */
  lemma RPartitionUnique(s: string, c: char, head: string, tail: string)
    requires s == head + [c] + tail
    requires c !in tail
    ensures RPartition(s, c) == (head, [c], tail)
  {
    var k := LastIndex(s, c);
    assert s[|head|] == c;
    assert s[..k] == head;
    assert s[k + 1..] == tail;
  }

  function Pow10(w: nat): (r: nat)
    ensures r >= 1
  {
    if w == 0 then 1 else 10 * Pow10(w - 1)
  }

  function DigitChar(d: nat): (r: char)
    requires d < 10
    ensures IsDigit(r) && r as int - '0' as int == d
  {
    ('0' as int + d) as char
  }

  /**
   The last `w` decimal digits of `n`, most significant first, padded with
   leading zeros: what the `%Y` (w = 4), `%m` and `%d` (w = 2) conversions of
   `strftime` print for a field of at most `w` digits.
   */
  function Pad(n: nat, w: nat): (r: string)
    ensures |r| == w
    ensures forall i :: 0 <= i < |r| ==> IsDigit(r[i])
  {
    if w == 0 then [] else Pad(n / 10, w - 1) + [DigitChar(n % 10)]
  }

  /** The number a string of decimal digits denotes. */
  function ParseDigits(s: string): int
  {
    if s == [] then 0
    else 10 * ParseDigits(s[..|s| - 1]) + (s[|s| - 1] as int - '0' as int)
  }

  /** Printing a number that fits in `w` digits and reading the digits back gives the number. */
  lemma {:induction false} PadRoundTrip(n: nat, w: nat)
    requires n < Pow10(w)
    ensures ParseDigits(Pad(n, w)) == n
  {
    if w == 0 {
      assert n == 0;
    } else {
      var s := Pad(n, w);
      var front := Pad(n / 10, w - 1);
      assert s == front + [DigitChar(n % 10)];
      assert s[..|s| - 1] == front;
      assert n / 10 < Pow10(w - 1);
      PadRoundTrip(n / 10, w - 1);
    }
  }
}
