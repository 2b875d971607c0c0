/**
 * The character classes and string helpers the script's regular expressions and
 * callbacks rely on, stated as JavaScript defines them for a regular expression
 * without the `u` flag: `\w` and `\b` are ASCII-only, `\s` is the WhiteSpace and
 * LineTerminator set, and the `i` flag folds only ASCII letters onto ASCII letters.
 */
module CharClass {

  /** `\w`: `[A-Za-z0-9_]`. */
  predicate IsWordChar(c: char) {
    ('A' <= c <= 'Z') || ('a' <= c <= 'z') || ('0' <= c <= '9') || c == '_'
  }

  predicate IsUpper(c: char) { 'A' <= c <= 'Z' }

  predicate IsLower(c: char) { 'a' <= c <= 'z' }

  /** `\s`: tab, vertical tab, form feed, the space separators, BOM and the line terminators. */
  predicate IsSpace(c: char) {
    var n := c as int;
    n == 0x09 || n == 0x0A || n == 0x0B || n == 0x0C || n == 0x0D || n == 0x20 ||
    n == 0xA0 || n == 0x1680 || (0x2000 <= n <= 0x200A) || n == 0x2028 || n == 0x2029 ||
    n == 0x202F || n == 0x205F || n == 0x3000 || n == 0xFEFF
  }

  /** ASCII lower-casing: the case folding of the `i` flag and of `toLowerCase` on the strings used here. */
  function Lower(c: char): (r: char)
    ensures IsUpper(c) ==> IsLower(r) && r as int == c as int + 32
    ensures !IsUpper(c) ==> r == c
  {
    if IsUpper(c) then (c as int + 32) as char else c
  }

  function LowerStr(s: string): (r: string)
    ensures |r| == |s|
    ensures forall j :: 0 <= j < |s| ==> r[j] == Lower(s[j])
  {
    seq(|s|, j requires 0 <= j < |s| => Lower(s[j]))
  }

  /** `\b` at position `k` of `s`: exactly one of the characters around `k` is a word character. */
  predicate WordBoundary(s: string, k: nat)
    requires k <= |s|
  {
    (k > 0 && IsWordChar(s[k - 1])) != (k < |s| && IsWordChar(s[k]))
  }

  /** The literal `lit` (written in lower case) occurs at `k`, compared as under the `i` flag. */
  predicate CiLiteralAt(s: string, k: nat, lit: string) {
    k + |lit| <= |s| && LowerStr(s[k..k + |lit|]) == lit
  }

  /** Where the maximal run of `\s` characters starting at `k` ends: what a greedy `\s+` consumes. */
  function SpaceRunEnd(s: string, k: nat): (e: nat)
    requires k <= |s|
    ensures k <= e <= |s|
    ensures forall j :: k <= j < e ==> IsSpace(s[j])
    ensures e == |s| || !IsSpace(s[e])
    decreases |s| - k
  {
    if k < |s| && IsSpace(s[k]) then SpaceRunEnd(s, k + 1) else k
  }

  /** Where the maximal run of `\w` characters starting at `k` ends: what a greedy `\w*` consumes. */
  function WordRunEnd(s: string, k: nat): (e: nat)
    requires k <= |s|
    ensures k <= e <= |s|
    ensures forall j :: k <= j < e ==> IsWordChar(s[j])
    ensures e == |s| || !IsWordChar(s[e])
    decreases |s| - k
  {
    if k < |s| && IsWordChar(s[k]) then WordRunEnd(s, k + 1) else k
  }

  predicate OccursAt(m: string, t: string, j: nat) {
    j + |t| <= |m| && m[j..j + |t|] == t
  }

  /** `String.prototype.includes`: `t` occurs in `m` at a position found by scanning from the left. */
  predicate Contains(m: string, t: string) {
    ContainsFrom(m, t, 0)
  }

  /** `t` occurs in `m` at some position from `i` on. */
  predicate ContainsFrom(m: string, t: string, i: nat)
    decreases |m| + 1 - i
  {
    i <= |m| && (OccursAt(m, t, i) || ContainsFrom(m, t, i + 1))
  }

  lemma {:induction false} ContainsFromIff(m: string, t: string, i: nat)
    requires i <= |m|
    ensures ContainsFrom(m, t, i) <==> exists j: nat | i <= j <= |m| :: OccursAt(m, t, j)
    decreases |m| - i
  {
    if i < |m| {
      ContainsFromIff(m, t, i + 1);
    } else {
      assert !ContainsFrom(m, t, i + 1);
    }
  }

  /** The scan finds `t` exactly when `t` occurs somewhere in `m`. */
  lemma ContainsIff(m: string, t: string)
    ensures Contains(m, t) <==> exists j: nat | j <= |m| :: OccursAt(m, t, j)
  {
    ContainsFromIff(m, t, 0);
  }

  lemma OccursAtChar(m: string, t: string, j: nat, k: nat)
    requires k < |t|
    ensures OccursAt(m, t, j) ==> m[j + k] == t[k]
  {
    if OccursAt(m, t, j) {
      assert m[j..j + |t|][k] == m[j + k];
    }
  }

  predicate IsLetterI(c: char) { c == 'i' || c == 'I' }

  /** How many times the letter i, in either case, occurs in `s`. */
  function ICount(s: string): (n: nat)
    ensures n <= |s|
  {
    if s == [] then 0 else (if IsLetterI(s[0]) then 1 else 0) + ICount(s[1..])
  }

  lemma {:induction false} ICountConcat(a: string, b: string)
    ensures ICount(a + b) == ICount(a) + ICount(b)
  {
    if a == [] {
      assert a + b == b;
    } else {
      assert (a + b)[0] == a[0] && (a + b)[1..] == a[1..] + b;
      ICountConcat(a[1..], b);
    }
  }

  lemma {:induction false} ICountAt(s: string, k: nat)
    requires k < |s| && IsLetterI(s[k])
    ensures ICount(s) >= 1
  {
    if k > 0 {
      ICountAt(s[1..], k - 1);
    }
  }

  lemma {:induction false} ICountNone(s: string)
    requires forall k :: 0 <= k < |s| ==> !IsLetterI(s[k])
    ensures ICount(s) == 0
  {
    if s != [] {
      ICountNone(s[1..]);
    }
  }
}
