/** What the plugin relies on from `java.lang.String`: `trim`, which strips every
    character up to and including the space from both ends, and `replace`, which
    substitutes every non-overlapping occurrence of a target, scanning left to right. */
module JavaText {
  /** The characters `String.trim` strips: every code point up to and including space. */
  predicate IsTrimmable(c: char) {
    c <= ' '
  }

  /** Nothing but trimmable characters (`isBlank` in Java 11 terms, for this alphabet). */
  predicate IsBlank(s: string) {
    forall i | 0 <= i < |s| :: IsTrimmable(s[i])
  }

  /** Leading trimmable characters removed. */
  function TrimStart(s: string): (r: string)
    ensures |r| <= |s| && r == s[|s| - |r|..]
    ensures r == [] || !IsTrimmable(r[0])
    ensures forall i | 0 <= i < |s| - |r| :: IsTrimmable(s[i])
  {
    if s == [] || !IsTrimmable(s[0]) then s else TrimStart(s[1..])
  }

  /** Trailing trimmable characters removed. */
  function TrimEnd(s: string): (r: string)
    ensures |r| <= |s| && r == s[..|r|]
    ensures r == [] || !IsTrimmable(r[|r| - 1])
    ensures forall i | |r| <= i < |s| :: IsTrimmable(s[i])
  {
    if s == [] || !IsTrimmable(s[|s| - 1]) then s else TrimEnd(s[..|s| - 1])
  }

  /** Java's `String.trim`. */
  function Trim(s: string): string {
    TrimEnd(TrimStart(s))
  }

  /** `trim` keeps one contiguous piece of the name and strips only trimmable characters
      around it. */
  lemma TrimIsInnerSlice(s: string) returns (a: nat, b: nat)
    ensures a <= b <= |s| && Trim(s) == s[a..b]
    ensures forall i | 0 <= i < a :: IsTrimmable(s[i])
    ensures forall i | b <= i < |s| :: IsTrimmable(s[i])
  {
    var t := TrimStart(s);
    a := |s| - |t|;
    var r := TrimEnd(t);
    b := a + |r|;
    assert Trim(s) == r;
    assert r == s[a..b] by {
      assert t == s[a..];
    }
    TrimEndTail(s, a, t, r);
  }

  /** What TrimEnd strips from a suffix of `s` is trimmable in `s` too. */
  lemma TrimEndTail(s: string, a: nat, t: string, r: string)
    requires a <= |s| && t == s[a..] && r == TrimEnd(t)
    ensures forall i | a + |r| <= i < |s| :: IsTrimmable(s[i])
  {
    forall i | a + |r| <= i < |s|
      ensures IsTrimmable(s[i])
    {
      assert s[i] == t[i - a];
    }
  }

  /** The trimmed name starts and ends on a character `trim` does not strip, and it is
      empty exactly when the name is nothing but trimmable characters. */
  lemma TrimBounds(s: string)
    ensures Trim(s) != [] ==> !IsTrimmable(Trim(s)[0]) && !IsTrimmable(Trim(s)[|Trim(s)| - 1])
    ensures Trim(s) == [] <==> IsBlank(s)
  {
    var t := TrimStart(s);
    var a := |s| - |t|;
    var r := TrimEnd(t);
    if r != [] {
      assert t[0] == r[0];
      assert s[a] == t[0];
      assert !IsTrimmable(s[a]);
    } else {
      assert t == [];
    }
  }

  /** Trimming a trimmed name changes nothing. */
  lemma TrimIdempotent(s: string)
    ensures Trim(Trim(s)) == Trim(s)
  {
    var r := Trim(s);
    TrimBounds(s);
    if r != [] {
      assert TrimStart(r) == r;
      assert TrimEnd(r) == r;
    }
  }

  /** `replace` with an empty target: the replacement before every character and after
      the last one. */
  function InsertEverywhere(s: string, replacement: string): (r: string)
    ensures |r| >= |s|
  {
    if s == [] then replacement else replacement + [s[0]] + InsertEverywhere(s[1..], replacement)
  }

  /** One copy of the replacement before each of the |s| characters and one after the last. */
  lemma {:induction false} InsertEverywhereLength(s: string, replacement: string)
    ensures |InsertEverywhere(s, replacement)| == |s| + (|s| + 1) * |replacement|
  {
    if s != [] {
      InsertEverywhereLength(s[1..], replacement);
      assert (|s| + 1) * |replacement| == |replacement| + |s| * |replacement|;
    }
  }

  /** One stride more: position k at stride m is position k - 1 moved on by m. */
  lemma StrideStep(k: int, m: int)
    ensures k * m == (k - 1) * m + m
  {
  }

  /** Character k of `s` sits right behind its own copy of the replacement, at stride
      |replacement| + 1. */
  lemma {:induction false} InsertEverywhereKeepsChar(s: string, replacement: string, k: nat)
    requires k < |s|
    ensures k * (|replacement| + 1) + |replacement| < |InsertEverywhere(s, replacement)|
    ensures InsertEverywhere(s, replacement)[k * (|replacement| + 1) + |replacement|] == s[k]
    decreases k
  {
    var m := |replacement| + 1;
    var rest := InsertEverywhere(s[1..], replacement);
    assert InsertEverywhere(s, replacement) == replacement + [s[0]] + rest;
    if k > 0 {
      InsertEverywhereKeepsChar(s[1..], replacement, k - 1);
      StrideStep(k, m);
    }
  }

  /** The result starts with the replacement. */
  lemma InsertEverywhereStartsWith(s: string, replacement: string)
    ensures |InsertEverywhere(s, replacement)| >= |replacement|
    ensures InsertEverywhere(s, replacement)[..|replacement|] == replacement
  {
    if s != [] {
      assert InsertEverywhere(s, replacement) == replacement + [s[0]] + InsertEverywhere(s[1..], replacement);
    }
  }

  /** The result starts with the replacement and keeps each character of `s` in order, at
      stride |replacement| + 1 behind its own copy of the replacement. */
  lemma {:induction false} InsertEverywhereKeepsText(s: string, replacement: string)
    ensures |InsertEverywhere(s, replacement)| >= |replacement|
    ensures InsertEverywhere(s, replacement)[..|replacement|] == replacement
    ensures forall k | 0 <= k < |s| ::
      k * (|replacement| + 1) + |replacement| < |InsertEverywhere(s, replacement)| &&
      InsertEverywhere(s, replacement)[k * (|replacement| + 1) + |replacement|] == s[k]
  {
    InsertEverywhereStartsWith(s, replacement);
    forall k | 0 <= k < |s|
      ensures k * (|replacement| + 1) + |replacement| < |InsertEverywhere(s, replacement)| &&
        InsertEverywhere(s, replacement)[k * (|replacement| + 1) + |replacement|] == s[k]
    {
      InsertEverywhereKeepsChar(s, replacement, k);
    }
  }

  /** `target` occurs in `s` starting at `i`. */
  predicate OccursAt(s: string, target: string, i: int) {
    0 <= i && i + |target| <= |s| && s[i..i + |target|] == target
  }

  /** Java's `s.replace(target, replacement)`: scanning from the left, each occurrence of a
      non-empty target is replaced and the scan resumes after it. */
  function ReplaceAll(s: string, target: string, replacement: string): string
    decreases |s|
  {
    if target == [] then InsertEverywhere(s, replacement)
    else if |s| < |target| then s
    else if s[..|target|] == target then replacement + ReplaceAll(s[|target|..], target, replacement)
    else [s[0]] + ReplaceAll(s[1..], target, replacement)
  }

  /** Inserting nothing everywhere changes nothing. */
  lemma {:induction false} InsertNothing(s: string)
    ensures InsertEverywhere(s, []) == s
  {
    if s != [] {
      InsertNothing(s[1..]);
    }
  }

  /** Replacing a placeholder by itself leaves the text as it was. */
  lemma {:induction false} ReplaceBySelf(s: string, target: string)
    ensures ReplaceAll(s, target, target) == s
    decreases |s|
  {
    if target == [] {
      InsertNothing(s);
    } else if |s| < |target| {
    } else if s[..|target|] == target {
      ReplaceBySelf(s[|target|..], target);
    } else {
      ReplaceBySelf(s[1..], target);
    }
  }

  /** A text without the (non-empty) target comes back unchanged. */
  lemma {:induction false} ReplaceAbsent(s: string, target: string, replacement: string)
    requires target != []
    requires forall i :: !OccursAt(s, target, i)
    ensures ReplaceAll(s, target, replacement) == s
    decreases |s|
  {
    if |s| >= |target| {
      assert !OccursAt(s, target, 0);
      forall i
        ensures !OccursAt(s[1..], target, i)
      {
        if OccursAt(s[1..], target, i) {
          assert s[1..][i..i + |target|] == s[i + 1..i + 1 + |target|];
          assert OccursAt(s, target, i + 1);
        }
      }
      ReplaceAbsent(s[1..], target, replacement);
    }
  }

  /** A text that is exactly the target becomes exactly the replacement. */
  lemma WholeTextReplaced(target: string, replacement: string)
    requires target != []
    ensures ReplaceAll(target, target, replacement) == replacement
  {
    assert target[..|target|] == target;
    assert target[|target|..] == [];
  }
}
