/**
 * The handful of Python string operations the monitor relies on: `str.strip()`,
 * `str.split()` (first field only), `str.replace(c, '')` for one character,
 * and `str.replace('\n', '<br>')`.
 */
module Text {

  /** The characters for which Python's `str.isspace()` holds; `strip()` and `split()` use the same set. */
  predicate IsSpace(c: char) {
    c == ' ' || ('\t' <= c <= '\r') || ('\U{1C}' <= c <= '\U{1F}') ||
    c == '\U{85}' || c == '\U{A0}' || c == '\U{1680}' || ('\U{2000}' <= c <= '\U{200A}') ||
    c == '\U{2028}' || c == '\U{2029}' || c == '\U{202F}' || c == '\U{205F}' || c == '\U{3000}'
  }

  predicate NoSpace(s: string) {
    forall k | 0 <= k < |s| :: !IsSpace(s[k])
  }

  /** `s.lstrip()`: what is left of `s` after dropping its leading whitespace. */
  function TrimStart(s: string): string
    decreases |s|
  {
    if |s| > 0 && IsSpace(s[0]) then TrimStart(s[1..]) else s
  }

  /** `s.rstrip()`: what is left of `s` after dropping its trailing whitespace. */
  function TrimEnd(s: string): string
    decreases |s|
  {
    if |s| > 0 && IsSpace(s[|s| - 1]) then TrimEnd(s[..|s| - 1]) else s
  }

  /** `s.strip()`. */
  function Strip(s: string): string
  {
    TrimEnd(TrimStart(s))
  }

  /**
   * `lstrip()` keeps a suffix of `s`, drops only whitespace, stops at the first
   * non-space character, and leaves a text without whitespace untouched.
   */
  lemma {:induction false} TrimStartShape(s: string)
    ensures |TrimStart(s)| <= |s| && TrimStart(s) == s[|s| - |TrimStart(s)|..]
    ensures forall k | 0 <= k < |s| - |TrimStart(s)| :: IsSpace(s[k])
    ensures TrimStart(s) == [] || !IsSpace(TrimStart(s)[0])
    ensures NoSpace(s) ==> TrimStart(s) == s
    decreases |s|
  {
    if |s| > 0 && IsSpace(s[0]) {
      TrimStartShape(s[1..]);
    }
  }

  /** The mirror image of `TrimStartShape` for `rstrip()`. */
  lemma {:induction false} TrimEndShape(s: string)
    ensures |TrimEnd(s)| <= |s| && TrimEnd(s) == s[..|TrimEnd(s)|]
    ensures forall k | |TrimEnd(s)| <= k < |s| :: IsSpace(s[k])
    ensures TrimEnd(s) == [] || !IsSpace(TrimEnd(s)[|TrimEnd(s)| - 1])
    ensures NoSpace(s) ==> TrimEnd(s) == s
    decreases |s|
  {
    if |s| > 0 && IsSpace(s[|s| - 1]) {
      TrimEndShape(s[..|s| - 1]);
    }
  }

  /**
   * `strip()` leaves no whitespace at either end, keeps only characters of `s`, and gives back a
   * text without whitespace unchanged.
   */
  lemma StripShape(s: string)
    ensures Strip(s) == [] || (!IsSpace(Strip(s)[0]) && !IsSpace(Strip(s)[|Strip(s)| - 1]))
    ensures NoSpace(s) ==> Strip(s) == s
    ensures forall x | x in Strip(s) :: x in s
  {
    var t := TrimStart(s);
    var u := TrimEnd(t);
    TrimStartShape(s);
    TrimEndShape(t);
    var i := |s| - |t|;
    forall x | x in u
      ensures x in s
    {
      var k :| 0 <= k < |u| && u[k] == x;
      assert t[k] == x;
      assert s[i + k] == x;
    }
    if NoSpace(s) {
      assert t == s;
    }
  }

  predicate AllSpace(s: string) {
    forall k | 0 <= k < |s| :: IsSpace(s[k])
  }

  lemma {:induction false} TrimStartPadded(pre: string, t: string)
    requires AllSpace(pre) && (t == [] || !IsSpace(t[0]))
    ensures TrimStart(pre + t) == t
    decreases |pre|
  {
    if pre != [] {
      assert (pre + t)[1..] == pre[1..] + t;
      TrimStartPadded(pre[1..], t);
    }
  }

  lemma {:induction false} TrimEndPadded(t: string, post: string)
    requires AllSpace(post) && (t == [] || !IsSpace(t[|t| - 1]))
    ensures TrimEnd(t + post) == t
    decreases |post|
  {
    if post != [] {
      assert (t + post)[..|t + post| - 1] == t + post[..|post| - 1];
      TrimEndPadded(t, post[..|post| - 1]);
    }
  }

  /** Stripping undoes any whitespace padding around a text that has none at its ends. */
  lemma StripPadded(pre: string, core: string, post: string)
    requires AllSpace(pre) && AllSpace(post)
    requires core != [] && !IsSpace(core[0]) && !IsSpace(core[|core| - 1])
    ensures Strip(pre + core + post) == core
  {
    assert pre + core + post == pre + (core + post);
    TrimStartPadded(pre, core + post);
    TrimEndPadded(core, post);
  }

  /** The longest prefix of `s` that holds no whitespace. */
  function TakeWord(s: string): (r: string)
    ensures |r| <= |s| && r == s[..|r|] && NoSpace(r)
    ensures |r| < |s| ==> IsSpace(s[|r|])
    ensures NoSpace(s) ==> r == s
    ensures forall x | x in r :: x in s
    decreases |s|
  {
    if |s| == 0 || IsSpace(s[0]) then [] else [s[0]] + TakeWord(s[1..])
  }

  /** `parts[0] if parts else ""` for `parts = s.split()`: the first whitespace-separated field. */
  function FirstField(s: string): (r: string)
    ensures NoSpace(r)
    ensures r == [] <==> forall k | 0 <= k < |s| :: IsSpace(s[k])
    ensures NoSpace(s) ==> r == s
    ensures forall x | x in r :: x in s
  {
    TrimStartShape(s);
    TakeWord(TrimStart(s))
  }

  /** `FirstField` gives the first field of `s`, not some later one. */
  lemma FirstFieldIsFirst(s: string)
    ensures exists i | 0 <= i <= |s| - |FirstField(s)| :: IsFieldAt(s, i, FirstField(s))
  {
    var t := TrimStart(s);
    var i := |s| - |t|;
    TrimStartShape(s);
    FieldAfterSpace(s, i);
    assert t == s[i..] && FirstField(s) == TakeWord(t);
    assert IsFieldAt(s, i, FirstField(s));
  }

  /** After a run of whitespace, the longest whitespace-free prefix of the rest is a field. */
  lemma FieldAfterSpace(s: string, i: nat)
    requires i <= |s| && forall k | 0 <= k < i :: IsSpace(s[k])
    ensures IsFieldAt(s, i, TakeWord(s[i..]))
  {
    var t := s[i..];
    var r := TakeWord(t);
    assert AllSpace(s[..i]) by {
      forall k | 0 <= k < i
        ensures IsSpace(s[..i][k])
      {
        assert s[..i][k] == s[k];
      }
    }
    assert r == s[i..i + |r|] by {
      assert r == t[..|r|];
    }
    if i + |r| < |s| {
      assert t[|r|] == s[i + |r|];
    }
  }

  /**
   * `w` is the first field of `s`, starting at `i`: only whitespace comes before it, and it runs
   * up to whitespace or the end of `s`.
   */
  predicate IsFieldAt(s: string, i: nat, w: string) {
    && i + |w| <= |s|
    && AllSpace(s[..i])
    && w == s[i..i + |w|]
    && (i + |w| == |s| || IsSpace(s[i + |w|]))
  }

  /** `s.replace(c, '')` for a single character `c`. */
  function Remove(s: string, c: char): (r: string)
    ensures c !in r
    ensures |r| <= |s|
    decreases |s|
  {
    if |s| == 0 then []
    else (if s[0] == c then [] else [s[0]]) + Remove(s[1..], c)
  }

  /** Removal works piecewise: removing from a concatenation concatenates the removals. */
  lemma {:induction false} RemoveAppend(a: string, b: string, c: char)
    ensures Remove(a + b, c) == Remove(a, c) + Remove(b, c)
    decreases |a|
  {
    if |a| > 0 {
      var head := if a[0] == c then [] else [a[0]];
      var x, y := Remove(a[1..], c), Remove(b, c);
      assert Remove(a + b, c) == head + Remove(a[1..] + b, c) by {
        assert (a + b)[0] == a[0] && (a + b)[1..] == a[1..] + b;
      }
      RemoveAppend(a[1..], b, c);
      assert Remove(a, c) == head + x;
      assert head + (x + y) == (head + x) + y;
    } else {
      assert a + b == b;
    }
  }

  /** Removing a character that does not occur leaves the text as it is. */
  lemma {:induction false} RemoveAbsent(s: string, c: char)
    requires c !in s
    ensures Remove(s, c) == s
    decreases |s|
  {
    if |s| > 0 {
      assert c !in s[1..];
      RemoveAbsent(s[1..], c);
    }
  }

  /** `replace(c, '')` adds no character: everything it keeps comes from the input. */
  lemma {:induction false} RemoveDrawsFromInput(s: string, c: char)
    ensures forall x | x in Remove(s, c) :: x in s
    decreases |s|
  {
    if |s| > 0 {
      RemoveDrawsFromInput(s[1..], c);
      forall x | x in Remove(s, c)
        ensures x in s
      {
        if x != s[0] {
          assert x in Remove(s[1..], c);
          assert x in s[1..];
        }
      }
    }
  }

  /** `s.replace('\n', '<br>')`. */
  function NewlinesToBreaks(s: string): (r: string)
    ensures '\n' !in r
    ensures |r| >= |s|
    decreases |s|
  {
    if |s| == 0 then []
    else (if s[0] == '\n' then "<br>" else [s[0]]) + NewlinesToBreaks(s[1..])
  }

  /** The replacement works piecewise: replacing in a concatenation concatenates the replacements. */
  lemma {:induction false} NewlinesToBreaksAppend(a: string, b: string)
    ensures NewlinesToBreaks(a + b) == NewlinesToBreaks(a) + NewlinesToBreaks(b)
    decreases |a|
  {
    if |a| > 0 {
      var head := if a[0] == '\n' then "<br>" else [a[0]];
      var x, y := NewlinesToBreaks(a[1..]), NewlinesToBreaks(b);
      assert NewlinesToBreaks(a + b) == head + NewlinesToBreaks(a[1..] + b) by {
        assert (a + b)[0] == a[0] && (a + b)[1..] == a[1..] + b;
      }
      NewlinesToBreaksAppend(a[1..], b);
      assert NewlinesToBreaks(a) == head + x;
      assert head + (x + y) == (head + x) + y;
    } else {
      assert a + b == b;
    }
  }

  /** `replace(c, '')` keeps every character other than `c`. */
  lemma {:induction false} RemoveKeeps(s: string, c: char)
    ensures forall x | x in s && x != c :: x in Remove(s, c)
    decreases |s|
  {
    if |s| > 0 {
      RemoveKeeps(s[1..], c);
      forall x | x in s && x != c
        ensures x in Remove(s, c)
      {
        if x != s[0] {
          assert x in s[1..];
        }
      }
    }
  }

  /** `replace('\n', '<br>')` keeps every character other than the newline. */
  lemma {:induction false} NewlinesToBreaksKeeps(s: string)
    ensures forall x | x in s && x != '\n' :: x in NewlinesToBreaks(s)
    decreases |s|
  {
    if |s| > 0 {
      NewlinesToBreaksKeeps(s[1..]);
      forall x | x in s && x != '\n'
        ensures x in NewlinesToBreaks(s)
      {
        if x != s[0] {
          assert x in s[1..];
        }
      }
    }
  }

  /** A text without a newline is left as it is. */
  lemma {:induction false} NewlinesToBreaksNoop(s: string)
    requires '\n' !in s
    ensures NewlinesToBreaks(s) == s
    decreases |s|
  {
    if |s| > 0 {
      assert '\n' !in s[1..];
      NewlinesToBreaksNoop(s[1..]);
    }
  }
}
