/** `normalizePrompt` of scripts/fixImagePairs.mjs and
    scripts/checkMissingPairs.mjs: `trim`, then every run of white space
    replaced by one space. */
module Prompts {
  import opened Strings

  /** The text from position `i` on with every run of white space replaced
      by one space. */
  function CollapseFrom(s: string, i: nat): string
    requires i <= |s|
    decreases |s| - i
  {
    if i == |s| then ""
    else if IsSpace(s[i]) then " " + CollapseFrom(s, SkipSpace(s, i))
    else [s[i]] + CollapseFrom(s, i + 1)
  }

  /** A collapse holds no white space but plain spaces, never two spaces in
      a row, starts with a space exactly when the text at `i` does, ends
      with one only when the text does, and is empty only at the end. */
  lemma {:induction false} CollapseShape(s: string, i: nat)
    requires i <= |s|
    ensures var r := CollapseFrom(s, i);
      && (forall k :: 0 <= k < |r| && IsSpace(r[k]) ==> r[k] == ' ')
      && (forall k :: 0 <= k < |r| - 1 ==> !(r[k] == ' ' && r[k + 1] == ' '))
      && ((|r| > 0 && r[0] == ' ') <==> (i < |s| && IsSpace(s[i])))
      && (|r| > 0 && r[|r| - 1] == ' ' ==> |s| > 0 && IsSpace(s[|s| - 1]))
      && (|r| == 0 <==> i == |s|)
    decreases |s| - i
  {
    if i < |s| {
      var j := if IsSpace(s[i]) then SkipSpace(s, i) else i + 1;
      CollapseShape(s, j);
      var rest := CollapseFrom(s, j);
      var r := CollapseFrom(s, i);
      assert r == [r[0]] + rest;
      assert forall k :: 1 <= k < |r| ==> r[k] == rest[k - 1];
    }
  }

  /** A normalised prompt: white space only as single spaces, and none at
      either end. */
  predicate Normal(s: string) {
    && (forall k :: 0 <= k < |s| && IsSpace(s[k]) ==> s[k] == ' ')
    && (forall k :: 0 <= k < |s| - 1 ==> !(s[k] == ' ' && s[k + 1] == ' '))
    && (|s| > 0 ==> s[0] != ' ' && s[|s| - 1] != ' ')
  }

  /** `normalizePrompt(prompt)`. */
  function NormalizePrompt(p: string): string
  {
    CollapseFrom(Trim(p), 0)
  }

  /** A normalised prompt is normal, and empty exactly when the prompt is
      white space alone. */
  lemma NormalizeNormal(p: string)
    ensures Normal(NormalizePrompt(p))
    ensures NormalizePrompt(p) == "" <==> forall k :: 0 <= k < |p| ==> IsSpace(p[k])
  {
    TrimSpec(p);
    var t := Trim(p);
    CollapseShape(t, 0);
    if t == "" {
      forall k | 0 <= k < |p|
        ensures IsSpace(p[k])
      {
      }
    } else {
      assert !IsSpace(p[LeadingSpace(p)]) by {
        assert t[0] == p[LeadingSpace(p)];
      }
    }
  }

  /** A normal text is its own collapse from any position. */
  lemma {:induction false} CollapseNormal(s: string, i: nat)
    requires Normal(s) && i <= |s|
    ensures CollapseFrom(s, i) == s[i..]
    decreases |s| - i
  {
    if i < |s| {
      CollapseShape(s, i);
      if IsSpace(s[i]) {
        assert i + 1 < |s| && !IsSpace(s[i + 1]);
        assert SkipSpace(s, i) == i + 1 by {
          assert SkipSpace(s, i + 1) == i + 1;
        }
      }
      CollapseNormal(s, i + 1);
      assert s[i..] == [s[i]] + s[i + 1..];
    }
  }

  /** A normalised prompt is left as it is. */
  lemma NormalFixed(s: string)
    requires Normal(s)
    ensures NormalizePrompt(s) == s
  {
    TrimOfTrimmed(s);
    CollapseNormal(s, 0);
    assert s[0..] == s;
  }

  /** Normalising twice is normalising once. */
  lemma NormalizeIdempotent(p: string)
    ensures NormalizePrompt(NormalizePrompt(p)) == NormalizePrompt(p)
  {
    NormalizeNormal(p);
    NormalFixed(NormalizePrompt(p));
  }

  /** The characters of a text that are not white space, in order. */
  function Visible(s: string): (r: string)
    ensures |r| <= |s|
  {
    if |s| == 0 then "" else (if IsSpace(s[0]) then "" else [s[0]]) + Visible(s[1..])
  }

  lemma {:induction false} VisibleAppend(a: string, b: string)
    ensures Visible(a + b) == Visible(a) + Visible(b)
    decreases |a|
  {
    if |a| == 0 {
      assert a + b == b;
    } else {
      assert (a + b)[0] == a[0];
      assert (a + b)[1..] == a[1..] + b;
      VisibleAppend(a[1..], b);
    }
  }

  /** White space alone has nothing visible. */
  lemma {:induction false} VisibleOfSpace(s: string)
    requires forall k :: 0 <= k < |s| ==> IsSpace(s[k])
    ensures Visible(s) == ""
    decreases |s|
  {
    if |s| > 0 {
      VisibleOfSpace(s[1..]);
    }
  }

  /** Collapsing keeps every visible character, in order. */
  lemma {:induction false} CollapseVisible(s: string, i: nat)
    requires i <= |s|
    ensures Visible(CollapseFrom(s, i)) == Visible(s[i..])
    decreases |s| - i
  {
    if i < |s| {
      if IsSpace(s[i]) {
        var k := SkipSpace(s, i);
        CollapseVisible(s, k);
        SpaceRunVisible(s, i, k);
      } else {
        CollapseVisible(s, i + 1);
        VisibleCharVisible(s, i);
      }
    }
  }

  /** A run of white space from `i` to `k` collapses to one space, and
      neither shows anything visible. */
  lemma SpaceRunVisible(s: string, i: nat, k: nat)
    requires i < |s| && IsSpace(s[i]) && k == SkipSpace(s, i)
    ensures Visible(CollapseFrom(s, i)) == Visible(CollapseFrom(s, k))
    ensures Visible(s[i..]) == Visible(s[k..])
  {
    VisibleAppend(" ", CollapseFrom(s, k));
    assert s[i..] == s[i..k] + s[k..];
    VisibleAppend(s[i..k], s[k..]);
    VisibleOfSpace(s[i..k]);
  }

  /** A visible character at `i` is kept by the collapse. */
  lemma VisibleCharVisible(s: string, i: nat)
    requires i < |s| && !IsSpace(s[i])
    ensures Visible(CollapseFrom(s, i)) == [s[i]] + Visible(CollapseFrom(s, i + 1))
    ensures Visible(s[i..]) == [s[i]] + Visible(s[i + 1..])
  {
    VisibleAppend([s[i]], CollapseFrom(s, i + 1));
    assert s[i..] == [s[i]] + s[i + 1..];
    VisibleAppend([s[i]], s[i + 1..]);
  }

  /** Normalising keeps every visible character of the prompt, in order:
      only white space changes. */
  lemma NormalizeKeepsVisible(p: string)
    ensures Visible(NormalizePrompt(p)) == Visible(p)
  {
    var t := Trim(p);
    CollapseVisible(t, 0);
    assert t[0..] == t;
    TrimVisible(p);
  }

  /** Trimming keeps every visible character. */
  lemma TrimVisible(p: string)
    ensures Visible(Trim(p)) == Visible(p)
  {
    var t := Trim(p);
    var a := LeadingSpace(p);
    TrimSpec(p);
    var head, tail := p[..a], p[a + |t|..];
    assert p == head + t + tail;
    assert Visible(head) == "" && Visible(tail) == "" by {
      VisibleOfSpace(head);
      VisibleOfSpace(tail);
    }
    VisibleAppend(head + t, tail);
    VisibleAppend(head, t);
  }
}
