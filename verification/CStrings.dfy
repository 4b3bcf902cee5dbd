/** Bytes, C strings and the comparison strcmp, shared by every other module. */
module CStrings {

  datatype Option<+T> = None | Some(value: T)

  type Byte = b: int | 0 <= b < 256

  /** One character of a C string, as the unsigned byte that strcmp compares; never the terminator. */
  type CChar = c: int | 1 <= c < 256 witness 1

  /** A C string without its terminator, so that strlen is the length of the sequence. */
  type CString = seq<CChar>

  /** A block of data that data_create2 accepts: at least one byte. */
  type Data = d: seq<Byte> | |d| > 0 witness [0]

  /** strcmp: the difference at the first place where the two strings differ, the terminator counting as 0. */
  function StrCmp(a: CString, b: CString): (r: int)
    decreases |a|
  {
    if a == [] then (if b == [] then 0 else -b[0])
    else if b == [] then a[0]
    else if a[0] != b[0] then a[0] - b[0]
    else StrCmp(a[1..], b[1..])
  }

  /** strcmp answers zero exactly on equal strings, and swapping its arguments flips the sign. */
  lemma {:induction false} StrCmpAntisymmetric(a: CString, b: CString)
    ensures StrCmp(a, b) == 0 <==> a == b
    ensures StrCmp(a, b) == -StrCmp(b, a)
    decreases |a|
  {
    if a != [] && b != [] && a[0] == b[0] {
      StrCmpAntisymmetric(a[1..], b[1..]);
      assert a == [a[0]] + a[1..] && b == [b[0]] + b[1..];
    }
  }

  lemma {:induction false} StrCmpTransitive(a: CString, b: CString, c: CString)
    requires StrCmp(a, b) < 0 && StrCmp(b, c) < 0
    ensures StrCmp(a, c) < 0
    decreases |a|
  {
    if a != [] && b != [] && c != [] && a[0] == b[0] == c[0] {
      StrCmpTransitive(a[1..], b[1..], c[1..]);
    }
  }

  /** strcmp is the order of a dictionary: at the first difference the smaller byte, or the end of a string, decides. */
  lemma {:induction false} StrCmpIsLexicographic(a: CString, b: CString)
    requires a != b
    ensures exists n: nat :: FirstDifference(a, b, n) && (StrCmp(a, b) < 0 <==> n == |a| || (n < |b| && a[n] < b[n]))
    decreases |a|
  {
    if a == [] || b == [] || a[0] != b[0] {
      assert FirstDifference(a, b, 0);
    } else {
      assert a == [a[0]] + a[1..] && b == [b[0]] + b[1..];
      StrCmpIsLexicographic(a[1..], b[1..]);
      var n: nat :|
        && FirstDifference(a[1..], b[1..], n)
        && (StrCmp(a[1..], b[1..]) < 0 <==> n == |a[1..]| || (n < |b[1..]| && a[1..][n] < b[1..][n]));
      assert a[..n + 1] == [a[0]] + a[1..][..n] && b[..n + 1] == [b[0]] + b[1..][..n];
      assert FirstDifference(a, b, n + 1);
    }
  }

  /** The strings agree before place n, and there they differ or one of them ends. */
  predicate FirstDifference(a: CString, b: CString, n: nat) {
    n <= |a| && n <= |b| && a[..n] == b[..n] && (n < |a| || n < |b|) && (n < |a| && n < |b| ==> a[n] != b[n])
  }
}
