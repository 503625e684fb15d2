/**
 * The fixed-capacity text buffers of an entry: a write copies at most the
 * capacity and puts a zero after shorter text; a read stops at the first zero.
 */
module TextField {
  import opened JavaTypes

  /** Capacities of `Entry.name` and `Entry.packageName`. */
  const NAME_CAPACITY: nat := 100
  const PACKAGE_CAPACITY: nat := 255

  function Min(a: nat, b: nat): (m: nat)
    ensures m <= a && m <= b && (m == a || m == b)
  {
    if a < b then a else b
  }

  predicate NoZero(s: seq<char16>) {
    forall i :: 0 <= i < |s| ==> s[i] != 0
  }

  /**
   * The buffer `t` after `copyCharArray(s, t)`: the first `min(|s|, |t|)`
   * places hold `s`, a zero follows when `s` is shorter than the buffer, and
   * every later place keeps its old char.
   */
  function Copied(t: seq<char16>, s: seq<char16>): (r: seq<char16>)
    ensures |r| == |t|
    ensures forall i :: 0 <= i < Min(|s|, |t|) ==> r[i] == s[i]
    ensures |s| < |t| ==> r[|s|] == 0
    ensures forall i :: |s| < i < |t| ==> r[i] == t[i]
  {
    if |s| < |t| then s + [0] + t[|s| + 1..] else s[..|t|]
  }

  /** `copyCharArray`: overwrites the buffer in place. */
  method CopyCharArray(source: seq<char16>, target: array<char16>)
    modifies target
    ensures target[..] == Copied(old(target[..]), source)
  {
    var limitedLength := Min(|source|, target.Length);
    for i := 0 to limitedLength
      invariant forall k :: 0 <= k < i ==> target[k] == source[k]
      invariant forall k :: i <= k < target.Length ==> target[k] == old(target[k])
    {
      target[i] := source[i];
    }
    if limitedLength < target.Length {
      target[limitedLength] := 0;
    }
  }

  /**
   * The text held by a buffer, as `charArrayToString` reads it: the chars
   * before the first zero, or the whole buffer when it holds no zero.
   */
  function TextOf(a: seq<char16>): (r: seq<char16>)
    ensures |r| <= |a| && r == a[..|r|]
    ensures NoZero(r)
    ensures |r| < |a| ==> a[|r|] == 0
  {
    if a == [] || a[0] == 0 then [] else [a[0]] + TextOf(a[1..])
  }

  /** The three properties of TextOf determine it. */
  lemma {:induction false} TextOfUnique(a: seq<char16>, r: seq<char16>)
    requires |r| <= |a| && r == a[..|r|] && NoZero(r)
    requires |r| < |a| ==> a[|r|] == 0
    ensures TextOf(a) == r
  {
    if a != [] && a[0] != 0 {
      assert r != [] && r[0] == a[0];
      TextOfUnique(a[1..], r[1..]);
    }
  }

  /** `charArrayToString`: scans the buffer up to the first zero. */
  method CharArrayToString(a: seq<char16>) returns (s: seq<char16>)
    ensures s == TextOf(a)
  {
    s := [];
    var i := 0;
    while i < |a|
      invariant 0 <= i <= |a| && s == a[..i] && NoZero(s)
    {
      var c := a[i];
      if c == 0 {
        break;
      }
      s := s + [c];
      i := i + 1;
    }
    TextOfUnique(a, s);
  }

  /**
   * Writing zero-free text into a buffer and reading it back gives the text
   * cut to the buffer's capacity.
   */
  lemma WriteThenRead(t: seq<char16>, s: seq<char16>)
    requires NoZero(s)
    ensures TextOf(Copied(t, s)) == s[..Min(|s|, |t|)]
  {
    var c := Copied(t, s);
    var r := s[..Min(|s|, |t|)];
    assert r == c[..|r|];
    TextOfUnique(c, r);
  }
}
