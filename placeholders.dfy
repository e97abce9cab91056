/**
 The three placeholders of a tag format and the facts about them that make
 first-occurrence replacement predictable: two different placeholders never
 overlap, and a placeholder never spans a run of digits.
 */
module Placeholders {
  import opened JsBuiltins

  const Year: string := "${year}"
  const Month: string := "${month}"
  const Rev: string := "${rev}"

  /** A `${name}` token: `$` first and nowhere else, and no digit anywhere. */
  predicate IsPlaceholder(p: string) {
    |p| >= 3 && p[0] == '$' && forall k | 0 <= k < |p| :: !IsDigit(p[k]) && (k > 0 ==> p[k] != '$')
  }

  /** Two placeholders that differ in their first letter. */
  predicate Distinct(p: string, q: string) {
    IsPlaceholder(p) && IsPlaceholder(q) && p[2] != q[2]
  }

  lemma PlaceholdersAreDistinct()
    ensures Distinct(Year, Month) && Distinct(Month, Year)
    ensures Distinct(Year, Rev) && Distinct(Rev, Year)
    ensures Distinct(Month, Rev) && Distinct(Rev, Month)
  {
    assert Year == ['$', '{', 'y', 'e', 'a', 'r', '}'];
    assert Month == ['$', '{', 'm', 'o', 'n', 't', 'h', '}'];
    assert Rev == ['$', '{', 'r', 'e', 'v', '}'];
  }

  /** A text without `$` holds no placeholder. */
  lemma DollarFreeHasNoPlaceholder(a: string, p: string)
    requires IsPlaceholder(p) && HasNoDollar(a)
    ensures !Contains(a, p)
  {
    forall i: nat | i <= |a|
      ensures !OccursAt(a, p, i)
    {
      if i + |p| <= |a| {
        assert a[i..i + |p|][0] == a[i];
      }
    }
  }

  /**
   A placeholder found nowhere in `a` is first found in `a + p + b` right
   after `a`: no occurrence can start inside `a` and run into `p`.
   */
  lemma FirstAfterCleanPrefix(a: string, p: string, b: string)
    requires IsPlaceholder(p) && !Contains(a, p)
    ensures IsFirstOccurrence(a + p + b, p, |a|)
  {
    var s := a + p + b;
    assert s[|a|..|a| + |p|] == p;
    forall j: nat | j < |a|
      ensures !OccursAt(s, p, j)
    {
      if j + |p| <= |a| {
        assert a[j..j + |p|] == s[j..j + |p|];
        assert !OccursAt(a, p, j);
      } else {
        assert s[|a|] == '$' != p[|a| - j];
      }
    }
  }

  /** Replacing the first `p` when `a` holds none replaces the one right after `a`. */
  lemma ReplaceAfterCleanPrefix(a: string, p: string, b: string, rep: string)
    requires IsPlaceholder(p) && !Contains(a, p) && HasNoDollar(rep)
    ensures ReplaceFirst(a + p + b, p, rep) == a + rep + b
  {
    var s := a + p + b;
    FirstAfterCleanPrefix(a, p, b);
    assert s[..|a|] == a;
    assert s[|a| + |p|..] == b;
  }

  /**
   A run of digits between two strings free of `p` creates no `p`: every
   occurrence overlapping the digits would contain a digit.
   */
  lemma DigitsCreateNoPlaceholder(a: string, d: string, b: string, p: string)
    requires IsPlaceholder(p) && |d| >= 1 && AllDigits(d)
    requires !Contains(a, p) && !Contains(b, p)
    ensures !Contains(a + d + b, p)
  {
    var s := a + d + b;
    forall j: nat | j + |p| <= |s|
      ensures !OccursAt(s, p, j)
    {
      if j + |p| <= |a| {
        SliceInPrefix(a, d, j, |p|);
        SliceInPrefix(a + d, b, j, |p|);
        assert !OccursAt(a, p, j);
      } else if j >= |a| + |d| {
        var i := j - |a| - |d|;
        SliceInSuffix(a + d, b, i, |p|);
        assert !OccursAt(b, p, i);
      } else {
        var pos := if j < |a| then |a| else j;
        assert IsDigit(s[pos]) && !IsDigit(p[pos - j]);
        assert s[j..j + |p|][pos - j] == s[pos];
      }
    }
  }

  /**
   A placeholder `q` between two strings free of another placeholder `p`
   creates no `p`.
   */
  lemma PlaceholderCreatesNoOther(a: string, q: string, b: string, p: string)
    requires Distinct(p, q)
    requires !Contains(a, p) && !Contains(b, p)
    ensures !Contains(a + q + b, p)
  {
    var s := a + q + b;
    forall j: nat | j + |p| <= |s|
      ensures !OccursAt(s, p, j)
    {
      if j + |p| <= |a| {
        SliceInPrefix(a, q, j, |p|);
        SliceInPrefix(a + q, b, j, |p|);
        assert !OccursAt(a, p, j);
      } else if j >= |a| + |q| {
        var i := j - |a| - |q|;
        SliceInSuffix(a + q, b, i, |p|);
        assert !OccursAt(b, p, i);
      } else {
        var w := s[j..j + |p|];
        if j < |a| {
          assert w[|a| - j] == s[|a|] == '$' != p[|a| - j];
        } else if j == |a| {
          assert w[2] == q[2] != p[2];
        } else {
          assert w[0] == q[j - |a|] != '$';
        }
      }
    }
  }

  /**
   Replacing the first `p` with digits neither removes nor creates an
   occurrence of a different placeholder `q`.
   */
  lemma ReplaceKeepsOtherPlaceholder(s: string, p: string, rep: string, q: string)
    requires Distinct(q, p) && |rep| >= 1 && AllDigits(rep)
    ensures Contains(ReplaceFirst(s, p, rep), q) <==> Contains(s, q)
  {
    var i := IndexOf(s, p);
    if i.Some? {
      var k := i.value;
      var a, b := s[..k], s[k + |p|..];
      assert s == a + p + b;
      assert ReplaceFirst(s, p, rep) == a + rep + b;
      if Contains(a, q) || Contains(b, q) {
        ContainsInParts(a, p, b, q);
        ContainsInParts(a, rep, b, q);
      } else {
        PlaceholderCreatesNoOther(a, p, b, q);
        DigitsCreateNoPlaceholder(a, rep, b, q);
      }
    }
  }

  /**
   Replacing the first `p` with digits and then the first `q`, in a string
   where the first `p` comes before the first `q`.
   */
  lemma ReplaceTwoInOrder(a: string, p: string, b: string, q: string, c: string, rp: string, rq: string)
    requires IsPlaceholder(p) && IsPlaceholder(q)
    requires !Contains(a, p) && !Contains(a, q) && !Contains(b, q)
    requires |rp| >= 1 && AllDigits(rp) && HasNoDollar(rq)
    ensures ReplaceFirst(ReplaceFirst(a + p + b + q + c, p, rp), q, rq) == a + rp + b + rq + c
  {
    var format := a + p + b + q + c;
    var first := ReplaceFirst(format, p, rp);
    assert first == (a + rp + b) + q + c by {
      assert format == a + p + (b + q + c);
      ReplaceAfterCleanPrefix(a, p, b + q + c, rp);
    }
    DigitsCreateNoPlaceholder(a, rp, b, q);
    ReplaceAfterCleanPrefix(a + rp + b, q, c, rq);
  }

  /**
   Replacing the first `p` and then the first `q`, in a string where the
   first `q` comes before the first `p`.
   */
  lemma ReplaceTwoOutOfOrder(a: string, q: string, b: string, p: string, c: string, rp: string, rq: string)
    requires Distinct(p, q)
    requires !Contains(a, p) && !Contains(b, p) && !Contains(a, q)
    requires HasNoDollar(rp) && HasNoDollar(rq)
    ensures ReplaceFirst(ReplaceFirst(a + q + b + p + c, p, rp), q, rq) == a + rq + b + rp + c
  {
    var format := a + q + b + p + c;
    var first := ReplaceFirst(format, p, rp);
    assert first == a + q + (b + rp + c) by {
      PlaceholderCreatesNoOther(a, q, b, p);
      ReplaceAfterCleanPrefix(a + q + b, p, c, rp);
    }
    ReplaceAfterCleanPrefix(a, q, b + rp + c, rq);
  }
}
