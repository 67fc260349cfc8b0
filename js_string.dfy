/** The JavaScript string built-ins the core relies on, over strings of characters:
    the white-space class shared by `\s` and `String.prototype.trim`, `includes`,
    `indexOf`, `startsWith`, `split("\n")`, `join("\n")`, `slice(-n)` and the
    global `replace(/lit/g, "")` used to strip code fences. */
module JsString {
  import opened Wrappers

  /** `\s` in a JavaScript regular expression and the characters `trim` removes:
      the WhiteSpace and LineTerminator productions of ECMA-262. */
  predicate IsSpace(c: char)
  {
    c == '\t' || c == '\n' || c == '\U{000B}' || c == '\U{000C}' || c == '\r' || c == ' '
    || c == '\U{00A0}' || c == '\U{1680}' || ('\U{2000}' <= c <= '\U{200A}')
    || c == '\U{2028}' || c == '\U{2029}' || c == '\U{202F}' || c == '\U{205F}'
    || c == '\U{3000}' || c == '\U{FEFF}'
  }

  /** The line terminators that `^` and `$` recognise under the `m` flag. */
  predicate IsLineTerminator(c: char)
  {
    c == '\n' || c == '\r' || c == '\U{2028}' || c == '\U{2029}'
  }

  lemma LineTerminatorIsSpace(c: char)
    requires IsLineTerminator(c)
    ensures IsSpace(c)
  {
  }

  predicate AllSpace(s: string)
  {
    forall i :: 0 <= i < |s| ==> IsSpace(s[i])
  }

  /** Length of the run of white space starting at `i` (a greedy `\s*`). */
  function SpaceRun(s: string, i: nat): (n: nat)
    ensures n > 0 ==> i + n <= |s|
    ensures forall k :: i <= k < i + n ==> IsSpace(s[k])
    ensures i + n >= |s| || !IsSpace(s[i + n])
    decreases |s| - i
  {
    if i < |s| && IsSpace(s[i]) then 1 + SpaceRun(s, i + 1) else 0
  }

  lemma {:induction false} SpaceRunCovers(s: string, i: nat, n: nat)
    requires i + n <= |s| && forall k :: i <= k < i + n ==> IsSpace(s[k])
    ensures SpaceRun(s, i) >= n
    decreases n
  {
    if n > 0 {
      SpaceRunCovers(s, i + 1, n - 1);
    }
  }

  /** A blank run that stops at a character that is not white space has that length. */
  lemma SpaceRunExact(s: string, i: nat, j: nat)
    requires i <= j < |s| && !IsSpace(s[j])
    requires forall k :: i <= k < j ==> IsSpace(s[k])
    ensures SpaceRun(s, i) == j - i
  {
    SpaceRunCovers(s, i, j - i);
  }

  /** Length of the run of white space that ends at `hi`, looking no further back
      than `lo`. */
  function TrailingSpace(s: string, lo: nat, hi: nat): (n: nat)
    requires lo <= hi <= |s|
    ensures n <= hi - lo
    ensures forall k :: hi - n <= k < hi ==> IsSpace(s[k])
    ensures n < hi - lo ==> !IsSpace(s[hi - n - 1])
    decreases hi - lo
  {
    if lo < hi && IsSpace(s[hi - 1]) then 1 + TrailingSpace(s, lo, hi - 1) else 0
  }

  /** `String.prototype.trim`: the text is the trimmed result surrounded by white space
      (the first `k` characters and those after `k + |r|`), and the result neither starts
      nor ends with white space. */
  function Trim(s: string): (r: string)
    ensures |r| <= |s|
    ensures r == [] || (!IsSpace(r[0]) && !IsSpace(r[|r| - 1]))
    ensures var k := SpaceRun(s, 0);
      k + |r| <= |s| && r == s[k..k + |r|]
      && (forall i :: 0 <= i < k ==> IsSpace(s[i]))
      && (forall i :: k + |r| <= i < |s| ==> IsSpace(s[i]))
  {
    var k := SpaceRun(s, 0);
    var e := |s| - TrailingSpace(s, k, |s|);
    s[k..e]
  }

  /** Trimming changes nothing when no character is white space. */
  lemma TrimSpaceFree(s: string)
    requires forall i :: 0 <= i < |s| ==> !IsSpace(s[i])
    ensures Trim(s) == s
  {
  }

  /** A text trims to nothing exactly when it is all white space. */
  lemma TrimEmptyIff(s: string)
    ensures Trim(s) == [] <==> AllSpace(s)
  {
  }

  /** A text that starts with a character other than white space keeps, once trimmed,
      every character up to the last such one. */
  lemma TrimKeeps(s: string, k: nat)
    requires 0 < |s| && !IsSpace(s[0])
    requires k < |s| && !IsSpace(s[k])
    ensures |Trim(s)| > k && Trim(s) == s[..|Trim(s)|]
  {
  }

  predicate OccursAt(s: string, t: string, i: nat)
  {
    i + |t| <= |s| && s[i..i + |t|] == t
  }

  /** An occurrence of `u + v` is one of `u` followed by one of `v`. */
  lemma OccursSplit(s: string, p: nat, u: string, v: string)
    requires OccursAt(s, u + v, p)
    ensures OccursAt(s, u, p) && OccursAt(s, v, p + |u|)
  {
    assert s[p..p + |u|] == (u + v)[..|u|] == u;
    assert s[p + |u|..p + |u| + |v|] == (u + v)[|u|..] == v;
  }

  /** `s.indexOf(t, from)`: the first position at or after `from` where `t` occurs. */
  function IndexOf(s: string, t: string, from: nat): (r: Option<nat>)
    ensures r.Some? ==> from <= r.value && OccursAt(s, t, r.value)
    ensures r.Some? ==> forall i :: from <= i < r.value ==> !OccursAt(s, t, i)
    ensures r.None? ==> forall i :: from <= i ==> !OccursAt(s, t, i)
    decreases |s| - from
  {
    if from + |t| > |s| then None
    else if OccursAt(s, t, from) then Some(from)
    else IndexOf(s, t, from + 1)
  }

  /** `s.includes(t)`. */
  function Contains(s: string, t: string): (b: bool)
    ensures b <==> exists i: nat :: OccursAt(s, t, i)
  {
    IndexOf(s, t, 0).Some?
  }

  /** `s.startsWith(t)`. */
  predicate StartsWith(s: string, t: string)
  {
    OccursAt(s, t, 0)
  }

  /** The occurrences of `t` inside `u` are the occurrences of `t` in any text that
      embeds `u`, shifted by what precedes it. */
  lemma OccursAtShift(pre: string, u: string, post: string, t: string, i: nat)
    requires i + |t| <= |u|
    ensures OccursAt(pre + u + post, t, |pre| + i) <==> OccursAt(u, t, i)
  {
    assert (pre + u + post)[|pre| + i..|pre| + i + |t|] == u[i..i + |t|];
  }

  /** The first occurrence found inside an embedded text is the first one in the whole text
      after the embedding point. */
  lemma {:induction false} IndexOfShift(pre: string, u: string, post: string, t: string, k: nat, j: nat)
    requires IndexOf(u, t, k) == Some(j)
    ensures IndexOf(pre + u + post, t, |pre| + k) == Some(|pre| + j)
  {
    var s := pre + u + post;
    OccursAtShift(pre, u, post, t, j);
    forall i | |pre| + k <= i < |pre| + j
      ensures !OccursAt(s, t, i)
    {
      OccursAtShift(pre, u, post, t, i - |pre|);
    }
    var r := IndexOf(s, t, |pre| + k);
    assert r.Some?;
  }

  lemma ContainsConcatLeft(a: string, b: string, t: string)
    requires Contains(a, t)
    ensures Contains(a + b, t)
  {
    var i: nat :| OccursAt(a, t, i);
    OccursAtShift([], a, b, t, i);
    assert [] + a + b == a + b;
  }

  lemma ContainsConcatRight(a: string, b: string, t: string)
    requires Contains(b, t)
    ensures Contains(a + b, t)
  {
    var i: nat :| OccursAt(b, t, i);
    OccursAtShift(a, b, [], t, i);
    assert a + b + [] == a + b;
  }

  lemma ContainsSuffix(a: string, t: string)
    ensures Contains(a + t, t)
  {
    OccursAtShift(a, t, [], t, 0);
    assert a + t + [] == a + t;
  }

  /** An occurrence of `t` in `a + b` lies in `a`, in `b`, or straddles the boundary. */
  lemma ContainsConcatSplit(a: string, b: string, t: string)
    requires Contains(a + b, t)
    ensures Contains(a, t) || Contains(b, t)
      || exists i: nat :: i < |a| < i + |t| && OccursAt(a + b, t, i)
  {
    var i: nat :| OccursAt(a + b, t, i);
    if i + |t| <= |a| {
      OccursAtShift([], a, b, t, i);
      assert [] + a + b == a + b;
    } else if i >= |a| {
      OccursAtShift(a, b, [], t, i - |a|);
      assert a + b + [] == a + b;
    }
  }

  // ---------------------------------------------------------------------------
  // split("\n") and join("\n")

  /** `s.split("\n")`: the pieces between newline characters, at least one. */
  function Split(s: string): (r: seq<string>)
    ensures |r| >= 1
    ensures forall i :: 0 <= i < |r| ==> '\n' !in r[i]
  {
    if |s| == 0 then [""]
    else
      var t := Split(s[1..]);
      if s[0] == '\n' then [""] + t else [[s[0]] + t[0]] + t[1..]
  }

  /** `ls.join("\n")`. */
  function Join(ls: seq<string>): string
  {
    if |ls| == 0 then ""
    else if |ls| == 1 then ls[0]
    else ls[0] + "\n" + Join(ls[1..])
  }

  lemma {:induction false} JoinSplit(s: string)
    ensures Join(Split(s)) == s
  {
    if |s| > 0 {
      var t := Split(s[1..]);
      JoinSplit(s[1..]);
      if s[0] == '\n' {
        assert ([""] + t)[1..] == t;
        assert s == "" + "\n" + s[1..];
      } else {
        var r := [[s[0]] + t[0]] + t[1..];
        if |t| == 1 {
          assert s == [s[0]] + s[1..];
        } else {
          assert r[1..] == t[1..];
          assert Join(t) == t[0] + "\n" + Join(t[1..]);
          assert s == [s[0]] + s[1..];
        }
      }
    }
  }

  /** A text without newlines ahead of the rest joins onto the first piece of the rest. */
  lemma {:induction false} SplitPrefix(x: string, y: string)
    requires '\n' !in x
    ensures Split(x + y) == [x + Split(y)[0]] + Split(y)[1..]
  {
    if |x| > 0 {
      assert (x + y)[0] == x[0] && (x + y)[1..] == x[1..] + y;
      SplitPrefix(x[1..], y);
      var t := Split(x[1..] + y);
      assert t[0] == x[1..] + Split(y)[0];
      assert t[1..] == Split(y)[1..];
      assert [x[0]] + t[0] == x + Split(y)[0];
    } else {
      assert x + y == y && x + Split(y)[0] == Split(y)[0];
      assert Split(y) == [Split(y)[0]] + Split(y)[1..];
    }
  }

  lemma SplitAtNewline(x: string, y: string)
    requires '\n' !in x
    ensures Split(x + "\n" + y) == [x] + Split(y)
  {
    SplitPrefix(x, "\n" + y);
    assert ("\n" + y)[0] == '\n' && ("\n" + y)[1..] == y;
    assert Split("\n" + y) == [""] + Split(y);
    assert x + "\n" + y == x + ("\n" + y);
    assert x + "" == x;
  }

  lemma SplitNoNewline(x: string)
    requires '\n' !in x
    ensures Split(x) == [x]
  {
    SplitPrefix(x, "");
    assert x + "" == x;
  }

  /** Splitting a concatenation: the last line of the first text and the first line of
      the second become one line. */
  lemma {:induction false} SplitConcat(a: string, b: string)
    ensures var la, lb := Split(a), Split(b);
      Split(a + b) == la[..|la| - 1] + [la[|la| - 1] + lb[0]] + lb[1..]
    decreases |a|
  {
    var lb := Split(b);
    if |a| == 0 {
      assert a + b == b;
      assert Split(a) == [""] && "" + lb[0] == lb[0];
      assert lb == [lb[0]] + lb[1..];
    } else {
      var a' := a[1..];
      assert (a + b)[0] == a[0] && (a + b)[1..] == a' + b;
      SplitConcat(a', b);
      var t := Split(a');
      var u := Split(a' + b);
      if a[0] == '\n' {
        assert Split(a + b) == [""] + u && Split(a) == [""] + t;
        LinesAfterNewline(t, lb[0], lb[1..]);
      } else {
        assert Split(a + b) == [[a[0]] + u[0]] + u[1..] && Split(a) == [[a[0]] + t[0]] + t[1..];
        LinesAfterChar(a[0], t, lb[0], lb[1..]);
      }
    }
  }

  /** The list step of `SplitConcat` for a text that starts with a newline. */
  lemma LinesAfterNewline(t: seq<string>, x: string, rest: seq<string>)
    requires |t| >= 1
    ensures var la := [""] + t;
      [""] + (t[..|t| - 1] + [t[|t| - 1] + x] + rest) == la[..|la| - 1] + [la[|la| - 1] + x] + rest
  {
    var la := [""] + t;
    assert la[..|la| - 1] == [""] + t[..|t| - 1];
  }

  /** The list step of `SplitConcat` for a text that starts with another character. */
  lemma LinesAfterChar(c: char, t: seq<string>, x: string, rest: seq<string>)
    requires |t| >= 1
    ensures var la := [[c] + t[0]] + t[1..];
      var u := t[..|t| - 1] + [t[|t| - 1] + x] + rest;
      [[c] + u[0]] + u[1..] == la[..|la| - 1] + [la[|la| - 1] + x] + rest
  {
    var k := |t|;
    var u := t[..k - 1] + [t[k - 1] + x] + rest;
    if k == 1 {
      assert u[0] == t[0] + x && u[1..] == rest;
      assert [c] + (t[0] + x) == ([c] + t[0]) + x;
    } else {
      assert u[0] == t[0] && u[1..] == t[1..k - 1] + [t[k - 1] + x] + rest;
    }
  }

  /** The other direction of the round trip: pieces without newlines come back from
      `split` exactly as they were joined. */
  lemma {:induction false} SplitJoin(ls: seq<string>)
    requires |ls| >= 1
    requires forall i :: 0 <= i < |ls| ==> '\n' !in ls[i]
    ensures Split(Join(ls)) == ls
  {
    if |ls| == 1 {
      SplitNoNewline(ls[0]);
    } else {
      SplitJoin(ls[1..]);
      SplitAtNewline(ls[0], Join(ls[1..]));
      assert ls == [ls[0]] + ls[1..];
    }
  }

  lemma {:induction false} JoinAppend(a: seq<string>, b: seq<string>)
    requires |a| >= 1 && |b| >= 1
    ensures Join(a + b) == Join(a) + "\n" + Join(b)
  {
    if |a| == 1 {
      assert (a + b)[1..] == b;
    } else {
      assert (a + b)[1..] == a[1..] + b;
      JoinAppend(a[1..], b);
    }
  }

  /** Every joined piece occurs in the joined text. */
  lemma {:induction false} JoinContains(ls: seq<string>, i: nat)
    requires i < |ls|
    ensures Contains(Join(ls), ls[i])
  {
    var t := ls[i];
    assert OccursAt(t, t, 0);
    if |ls| == 1 {
      assert Join(ls) == t;
    } else if i == 0 {
      ContainsConcatLeft(t, "\n" + Join(ls[1..]), t);
      assert Join(ls) == t + ("\n" + Join(ls[1..]));
    } else {
      var rest := ls[1..];
      assert rest[i - 1] == t;
      JoinContains(rest, i - 1);
      ContainsConcatRight(ls[0] + "\n", Join(rest), t);
      assert Join(ls) == ls[0] + "\n" + Join(rest);
    }
  }

  /** `s.slice(-n)` for a positive `n`: the last `n` elements, or all of them. */
  function SliceLast<T>(s: seq<T>, n: nat): (r: seq<T>)
    ensures |r| == if |s| < n then |s| else n
    ensures r == s[|s| - |r|..]
  {
    if |s| <= n then s else s[|s| - n..]
  }

  /** Regrouping a concatenation, stated once so that proofs about long computed
      sequences need not compare them element by element. */
  lemma AppendAssoc<T>(a: seq<T>, b: seq<T>, c: seq<T>)
    ensures (a + b) + c == a + (b + c)
  {
  }

  lemma AppendEmpty<T>(a: seq<T>)
    ensures a + [] == a && [] + a == a
  {
  }

  // ---------------------------------------------------------------------------
  // replace(/lit/g, "")

  /** Removes every occurrence of `pat`, scanning left to right without overlaps. */
  function RemoveAll(s: string, pat: string): string
    requires |pat| > 0
    decreases |s|
  {
    if |s| == 0 then []
    else if OccursAt(s, pat, 0) then RemoveAll(s[|pat|..], pat)
    else [s[0]] + RemoveAll(s[1..], pat)
  }

  /** Characters that cannot start `pat` pass through unchanged. */
  lemma {:induction false} RemoveAllFreePrefix(u: string, v: string, pat: string)
    requires |pat| > 0
    requires pat[0] !in u
    ensures RemoveAll(u + v, pat) == u + RemoveAll(v, pat)
  {
    if |u| > 0 {
      assert (u + v)[0] == u[0];
      assert (u + v)[1..] == u[1..] + v;
      RemoveAllFreePrefix(u[1..], v, pat);
      assert u == [u[0]] + u[1..];
    } else {
      assert u + v == v;
    }
  }

  /** Removing `pat` keeps every occurrence of a text `t` that shares no starting
      character with it. */
  lemma {:induction false} RemoveAllKeeps(s: string, pat: string, t: string, i: nat)
    requires |pat| > 0 && |t| > 0
    requires t[0] !in pat && pat[0] !in t
    requires OccursAt(s, t, i)
    ensures Contains(RemoveAll(s, pat), t)
    decreases |s|
  {
    if OccursAt(s, pat, 0) {
      assert s[..|pat|] == pat;
      assert i >= |pat|;
      assert s[|pat|..][i - |pat|..i - |pat| + |t|] == s[i..i + |t|];
      RemoveAllKeeps(s[|pat|..], pat, t, i - |pat|);
    } else if i > 0 {
      assert s[1..][i - 1..i - 1 + |t|] == s[i..i + |t|];
      RemoveAllKeeps(s[1..], pat, t, i - 1);
      ContainsConcatRight([s[0]], RemoveAll(s[1..], pat), t);
    } else {
      assert s == t + s[|t|..];
      RemoveAllFreePrefix(t, s[|t|..], pat);
      ContainsConcatLeft(t, RemoveAll(s[|t|..], pat), t);
      OccursAtShift([], t, [], t, 0);
      assert [] + t + [] == t;
    }
  }

  /** The code fence both stripping passes remove. */
  const Fence := "```"

  /** Number of backticks at the start of a text. */
  function LeadingTicks(s: string): nat
  {
    if |s| > 0 && s[0] == '`' then 1 + LeadingTicks(s[1..]) else 0
  }

  lemma {:induction false} LeadingTicksAre(s: string, k: nat)
    requires k <= LeadingTicks(s)
    ensures k <= |s| && forall i :: 0 <= i < k ==> s[i] == '`'
  {
    if k > 0 {
      LeadingTicksAre(s[1..], k - 1);
    }
  }

  lemma LeadingTicksFence(s: string)
    ensures LeadingTicks(s) >= 3 ==> OccursAt(s, Fence, 0)
  {
    if LeadingTicks(s) >= 3 {
      LeadingTicksAre(s, 3);
      assert s[..3] == Fence;
    }
  }

  /** Once every "```" has been removed none is left, and the leading backticks that
      survive are those of the original run modulo three. */
  lemma {:induction false} RemoveFenceLeavesNone(s: string)
    ensures LeadingTicks(RemoveAll(s, Fence)) == LeadingTicks(s) % 3
    ensures !Contains(RemoveAll(s, Fence), Fence)
    decreases |s|
  {
    var r := RemoveAll(s, Fence);
    if |s| == 0 {
      assert !OccursAt(r, Fence, 0);
    } else if OccursAt(s, Fence, 0) {
      RemoveFenceLeavesNone(s[3..]);
      assert s[0] == '`' && s[1] == '`' && s[2] == '`';
      assert s[1..][1..] == s[2..] && s[2..][1..] == s[3..];
      assert LeadingTicks(s) == 3 + LeadingTicks(s[3..]);
    } else {
      var rest := RemoveAll(s[1..], Fence);
      RemoveFenceLeavesNone(s[1..]);
      assert r == [s[0]] + rest;
      if s[0] == '`' {
        LeadingTicksFence(s);
        assert LeadingTicks(s[1..]) == LeadingTicks(s) - 1;
        assert LeadingTicks(r) == 1 + LeadingTicks(rest);
      } else {
        assert LeadingTicks(r) == 0;
      }
      NoFenceCons(s[0], rest);
    }
  }

  /** Putting one character in front of a text without "```" makes none, unless the
      character is a backtick and the text starts with two. */
  lemma NoFenceCons(c: char, rest: string)
    requires !Contains(rest, Fence)
    requires c == '`' ==> LeadingTicks(rest) < 2
    ensures !Contains([c] + rest, Fence)
  {
    var r := [c] + rest;
    forall i: nat | i + 3 <= |r|
      ensures !OccursAt(r, Fence, i)
    {
      if i == 0 {
        LeadingTicksBelowTwo(rest);
        assert r[0] == c && r[1] == rest[0] && r[2] == rest[1];
      } else {
        assert rest[i - 1..i - 1 + 3] == r[i..i + 3];
        assert !OccursAt(rest, Fence, i - 1);
      }
    }
  }

  lemma LeadingTicksBelowTwo(u: string)
    ensures LeadingTicks(u) < 2 ==> !(|u| >= 2 && u[0] == '`' && u[1] == '`')
  {
    if |u| >= 2 && u[0] == '`' && u[1] == '`' {
      assert u[1..][0] == '`';
    }
  }

  /** A text without "```" followed by a text without any backtick has no "```". */
  lemma NoFenceConcat(a: string, b: string)
    requires !Contains(a, Fence)
    requires '`' !in b
    ensures !Contains(a + b, Fence)
  {
    forall i: nat | i + 3 <= |a + b|
      ensures !OccursAt(a + b, Fence, i)
    {
      if i + 3 <= |a| {
        assert a[i..i + 3] == (a + b)[i..i + 3];
        assert !OccursAt(a, Fence, i);
      } else {
        assert (a + b)[i..i + 3][2] == (a + b)[i + 2] == b[i + 2 - |a|];
        assert b[i + 2 - |a|] in b;
      }
    }
  }
}
