/** The overlap used when an answer is continued: its last five lines are quoted to
    the model, and the continuation replaces them. */
module LineWindow {
  import opened JsString

  const OverlapLines := 5

  /** Index of the first line of the window among the `n` lines of a text. */
  function WindowStart(n: nat): nat
  {
    if n > OverlapLines then n - OverlapLines else 0
  }

  /** `s.split("\n").slice(-5).join("\n")`: the last five lines, or all of them. */
  function Window(s: string): (w: string)
    ensures |Split(w)| == if |Split(s)| < OverlapLines then |Split(s)| else OverlapLines
    ensures Split(w) == Split(s)[WindowStart(|Split(s)|)..]
  {
    var ls := Split(s);
    var w := Join(ls[WindowStart(|ls|)..]);
    SplitJoin(ls[WindowStart(|ls|)..]);
    w
  }

  /** `s.split("\n").slice(0, -5).join("\n")`: everything before the window. */
  function BeforeWindow(s: string): (p: string)
    ensures |Split(s)| <= OverlapLines ==> p == ""
    ensures |Split(s)| > OverlapLines ==> Split(p) == Split(s)[..|Split(s)| - OverlapLines]
  {
    var ls := Split(s);
    var p := Join(ls[..WindowStart(|ls|)]);
    if |ls| > OverlapLines then SplitJoin(ls[..WindowStart(|ls|)]); p else p
  }

  /** The text is the part before the window, a newline, and the window; when it has at
      most five lines the window is the whole text. */
  lemma {:induction false} Partition(s: string)
    ensures |Split(s)| <= OverlapLines ==> Window(s) == s
    ensures |Split(s)| > OverlapLines ==> s == BeforeWindow(s) + "\n" + Window(s)
  {
    var ls := Split(s);
    JoinSplit(s);
    if |ls| > OverlapLines {
      var k := |ls| - OverlapLines;
      assert ls == ls[..k] + ls[k..];
      JoinAppend(ls[..k], ls[k..]);
    } else {
      assert ls[0..] == ls;
    }
  }

  /** The window is a suffix of the text. */
  lemma WindowIsSuffix(s: string)
    ensures |Window(s)| <= |s| && s[|s| - |Window(s)|..] == Window(s)
  {
    Partition(s);
    if |Split(s)| > OverlapLines {
      var p := BeforeWindow(s);
      assert s[|p| + 1..] == Window(s);
    }
  }
}
