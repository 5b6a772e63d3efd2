/** What redaction keeps of a message, and what it hides. */
module RedactionMeaning {
  import opened Text
  import opened Redaction

  /** Text that can stand between a "://" and its "@". */
  predicate IsUserinfo(u: string) {
    forall i :: 0 <= i < |u| ==> u[i] != '@' && !IsTerminator(u[i])
  }

  function WithUserinfo(pre: string, u: string, t: string): string {
    pre + ("://" + (u + ("@" + t)))
  }

  lemma UserinfoFound(u: string, t: string)
    requires IsUserinfo(u)
    ensures var rest := u + ("@" + t); HasUserinfo(rest) && Find(rest, '@') == |u| && rest[|u| + 1..] == t
  {
    var rest := u + ("@" + t);
    assert forall i :: 0 <= i < |u| ==> rest[i] == u[i];
    assert rest[|u|] == '@';
    assert FirstAt(rest, '@', |u|);
    assert Find(rest, '@') == |u|;
    assert rest[Terminator(rest)..] != [] ==> IsTerminator(rest[Terminator(rest)]);
  }

  /** The first "://" of such a text is the first one of `pre`, or else the one behind `pre`. */
  lemma FirstSchemeOf(pre: string, u: string, t: string)
    ensures FindScheme(WithUserinfo(pre, u, t)) == if FindScheme(pre) == -1 then |pre| else FindScheme(pre)
  {
    var s, p := WithUserinfo(pre, u, t), FindScheme(pre);
    assert s[|pre|] == ':' && s[|pre| + 1] == '/' && s[|pre| + 2] == '/';
    assert forall i :: 0 <= i < |pre| ==> s[i] == pre[i];
    assert forall q :: 0 <= q < |pre| ==> (SchemeAt(s, q) <==> SchemeAt(pre, q));
    assert SchemeAt(s, |pre|);
    assert FirstScheme(s, if p == -1 then |pre| else p);
  }

  /** Behind a "://" inside `pre`, the text added after `pre` changes neither "@" nor terminator. */
  lemma SameCutInside(pre: string, u: string, t: string)
    requires IsUserinfo(u)
    ensures
      var s := WithUserinfo(pre, u, t);
      && Find(s, '@') != -1
      && (HasUserinfo(s) <==> HasUserinfo(pre))
      && (HasUserinfo(pre) ==> Find(s, '@') == Find(pre, '@'))
  {
    var s, at := WithUserinfo(pre, u, t), Find(pre, '@');
    assert forall i :: 0 <= i < |pre| ==> s[i] == pre[i];
    assert s[|pre|] == ':' && s[|pre| + 1] == '/';
    assert s[|pre| + 3 + |u|] == '@';
    assert Terminator(s) <= |pre| + 1;
    if at != -1 {
      assert FirstAt(s, '@', at);
      assert Find(s, '@') == at;
    } else {
      assert Find(s, '@') >= |pre| + 1;
    }
  }

  /**
   * Redaction puts the mark in place of the userinfo and keeps everything around it: what comes
   * before and after is redacted on its own.
   */
  lemma RedactionReplacesUserinfo(pre: string, u: string, t: string)
    requires IsUserinfo(u)
    ensures Redacted(WithUserinfo(pre, u, t)) == Redacted(pre) + "://<redacted>@" + Redacted(t)
  {
    HidesUserinfo(pre, u, t);
    assert HIDDEN == "://<redacted>@";
  }

  lemma {:induction false} HidesUserinfo(pre: string, u: string, t: string)
    requires IsUserinfo(u)
    ensures Redacted(WithUserinfo(pre, u, t)) == Redacted(pre) + HIDDEN + Redacted(t)
    decreases |pre|
  {
    var p := FindScheme(pre);
    if p == -1 {
      NoSchemeBefore(pre, u, t);
    } else {
      var rest := pre[p + 3..];
      if HasUserinfo(rest) {
        var tail := rest[Find(rest, '@') + 1..];
        HidesUserinfo(tail, u, t);
        MarkedBefore(pre, u, t, p, rest, tail);
      } else {
        HidesUserinfo(rest, u, t);
        SkippedBefore(pre, u, t, p, rest);
      }
    }
  }

  const HIDDEN := "://" + (MARK + "@")

  lemma NoSchemeBefore(pre: string, u: string, t: string)
    requires IsUserinfo(u) && FindScheme(pre) == -1
    ensures Redacted(WithUserinfo(pre, u, t)) == Redacted(pre) + HIDDEN + Redacted(t)
  {
    RedactedUncut(pre);
    CutBehind(pre, u, t);
    Hide(pre, Redacted(t), Redacted(WithUserinfo(pre, u, t)));
  }

  lemma CutBehind(pre: string, u: string, t: string)
    requires IsUserinfo(u) && FindScheme(pre) == -1
    ensures Redacted(WithUserinfo(pre, u, t)) == (pre + "://") + (MARK + "@") + Redacted(t)
  {
    var s, rest := WithUserinfo(pre, u, t), u + ("@" + t);
    FirstSchemeOf(pre, u, t);
    SchemeCut(pre, rest);
    UserinfoFound(u, t);
    RedactedCut(s, |pre|, rest);
  }

  lemma Hide(pre: string, back: string, r: string)
    requires r == (pre + "://") + (MARK + "@") + back
    ensures r == pre + HIDDEN + back
  {
    Regroup(pre, "://", MARK + "@");
  }

  lemma SchemeCut(pre: string, rest: string)
    ensures
      var s := pre + ("://" + rest);
      s[..|pre| + 3] == pre + "://" && s[|pre| + 3..] == rest
  {
  }

  lemma CutFront(pre: string, u: string, t: string, k: nat)
    requires k <= |pre|
    ensures WithUserinfo(pre, u, t)[..k] == pre[..k]
    ensures WithUserinfo(pre, u, t)[k..] == WithUserinfo(pre[k..], u, t)
  {
  }

  /** A "://" inside `pre` is cut as in `pre` alone, except that an "@" always follows it. */
  lemma CutInside(pre: string, u: string, t: string, p: nat, rest: string)
    requires IsUserinfo(u) && FindScheme(pre) == p && rest == pre[p + 3..]
    ensures
      var s, at := WithUserinfo(pre, u, t), Find(rest, '@');
      Redacted(s) ==
        if HasUserinfo(rest) then pre[..p + 3] + (MARK + "@") + Redacted(WithUserinfo(rest[at + 1..], u, t))
        else pre[..p + 3] + Redacted(WithUserinfo(rest, u, t))
  {
    var s, longer := WithUserinfo(pre, u, t), WithUserinfo(rest, u, t);
    assert FindScheme(s) == p by { FirstSchemeOf(pre, u, t); }
    assert s[..p + 3] == pre[..p + 3] && s[p + 3..] == longer by { CutFront(pre, u, t, p + 3); }
    SameCutInside(rest, u, t);
    RedactedCut(s, p, longer);
    if HasUserinfo(rest) {
      CutFront(rest, u, t, Find(rest, '@') + 1);
    }
  }

  lemma MarkedBefore(pre: string, u: string, t: string, p: nat, rest: string, tail: string)
    requires IsUserinfo(u) && FindScheme(pre) == p && rest == pre[p + 3..] && HasUserinfo(rest)
    requires tail == rest[Find(rest, '@') + 1..]
    requires Redacted(WithUserinfo(tail, u, t)) == Redacted(tail) + HIDDEN + Redacted(t)
    ensures Redacted(WithUserinfo(pre, u, t)) == Redacted(pre) + HIDDEN + Redacted(t)
  {
    var front := pre[..p + 3] + (MARK + "@");
    assert Redacted(pre) == front + Redacted(tail) by { RedactedCut(pre, p, rest); }
    assert Redacted(WithUserinfo(pre, u, t)) == front + Redacted(WithUserinfo(tail, u, t)) by {
      CutInside(pre, u, t, p, rest);
    }
    Assemble(front, Redacted(tail), Redacted(t), Redacted(pre), Redacted(WithUserinfo(pre, u, t)));
  }

  lemma SkippedBefore(pre: string, u: string, t: string, p: nat, rest: string)
    requires IsUserinfo(u) && FindScheme(pre) == p && rest == pre[p + 3..] && !HasUserinfo(rest)
    requires Redacted(WithUserinfo(rest, u, t)) == Redacted(rest) + HIDDEN + Redacted(t)
    ensures Redacted(WithUserinfo(pre, u, t)) == Redacted(pre) + HIDDEN + Redacted(t)
  {
    var front := pre[..p + 3];
    assert Redacted(pre) == front + Redacted(rest) by { SkipOrStop(pre, p, rest); }
    assert Redacted(WithUserinfo(pre, u, t)) == front + Redacted(WithUserinfo(rest, u, t)) by {
      CutInside(pre, u, t, p, rest);
    }
    Assemble(front, Redacted(rest), Redacted(t), Redacted(pre), Redacted(WithUserinfo(pre, u, t)));
  }

  lemma Assemble(front: string, middle: string, back: string, short: string, long: string)
    requires short == front + middle && long == front + (middle + HIDDEN + back)
    ensures long == short + HIDDEN + back
  {
    Regroup4(front, middle, HIDDEN, back);
  }

  lemma Regroup4(a: string, b: string, c: string, d: string)
    ensures a + (b + c + d) == (a + b) + c + d
  {
  }

  /** Without userinfo behind the first "://", the text up to there is kept and the rest redacted. */
  lemma SkipOrStop(s: string, p: nat, rest: string)
    requires FindScheme(s) == p && rest == s[p + 3..] && !HasUserinfo(rest)
    ensures Redacted(s) == s[..p + 3] + Redacted(rest)
  {
    if '@' in rest {
      RedactedCut(s, p, rest);
    } else {
      RedactedUncut(s);
      NoAtUncut(rest);
    }
  }

  lemma NoAtUncut(s: string)
    requires '@' !in s
    ensures Redacted(s) == s
  {
    var q := FindScheme(s);
    assert q != -1 ==> '@' !in s[q + 3..];
    RedactedUncut(s);
  }

  /** Information flow: messages that differ only in a userinfo are redacted to the same text. */
  lemma UserinfoDoesNotShow(pre: string, u: string, v: string, t: string)
    requires IsUserinfo(u) && IsUserinfo(v)
    ensures Redacted(WithUserinfo(pre, u, t)) == Redacted(WithUserinfo(pre, v, t))
  {
    RedactionReplacesUserinfo(pre, u, t);
    RedactionReplacesUserinfo(pre, v, t);
  }
}
