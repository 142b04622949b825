/** String operations the pipeline relies on: substring search, the global
    left-to-right literal replacement shared by Python's `str.replace` and
    `sed s/…/…/g`, and Python's `str.strip()`.
 */
module Text {

  /** `p in t`: p occurs in t as a contiguous factor. */
  predicate Occurs(t: string, p: string)
    decreases |t|
  {
    p <= t || (|t| > 0 && Occurs(t[1..], p))
  }

  /** Replace every occurrence of p by r, scanning left to right; after a
      match the scan resumes behind it, so matches never overlap. */
  function ReplaceAll(s: string, p: string, r: string): (o: string)
    requires |p| > 0
    ensures |r| <= |p| ==> |o| <= |s|
    ensures |r| == |p| ==> |o| == |s|
    decreases |s|
  {
    if |s| == 0 then []
    else if p <= s then r + ReplaceAll(s[|p|..], p, r)
    else [s[0]] + ReplaceAll(s[1..], p, r)
  }

  /** q can never be assembled by writing r: q is not inside r, no tail of r
      starts q, and no proper tail of q starts r or is started by it. */
  predicate NoStraddle(q: string, r: string) {
    && !Occurs(r, q)
    && (forall t :: 0 <= t < |r| ==> !(r[t..] < q))
    && (forall m :: 1 <= m < |q| ==> !(q[m..] <= r) && !(r <= q[m..]))
  }

  /** Wherever q starts in s, p starts too. */
  predicate OnlyWhere(s: string, q: string, p: string)
    decreases |s|
  {
    (q <= s ==> p <= s) && (|s| > 0 ==> OnlyWhere(s[1..], q, p))
  }

  /** The position of the first c in s, or |s| when there is none. */
  function IndexOf(s: string, c: char): (i: nat)
    ensures i <= |s|
    ensures forall k :: 0 <= k < i ==> s[k] != c
    ensures i < |s| ==> s[i] == c
    decreases |s|
  {
    if |s| == 0 || s[0] == c then 0 else 1 + IndexOf(s[1..], c)
  }

  // ---------------------------------------------------------------- lemmas

  /** The first c of `a + [c] + b` is the one after a, when a holds none. */
  lemma IndexOfAfter(a: string, c: char, b: string)
    requires forall k :: 0 <= k < |a| ==> a[k] != c
    ensures IndexOf(a + [c] + b, c) == |a|
  {
    var s := a + [c] + b;
    var i := IndexOf(s, c);
    assert s[|a|] == c;
    assert forall k :: 0 <= k < |a| ==> s[k] == a[k];
  }

  /** Text without the pattern comes out of the replacement unchanged. */
  lemma {:induction false} ReplaceAllWithoutMatch(s: string, p: string, r: string)
    requires |p| > 0 && !Occurs(s, p)
    ensures ReplaceAll(s, p, r) == s
    decreases |s|
  {
    if |s| > 0 {
      ReplaceAllWithoutMatch(s[1..], p, r);
      assert s == [s[0]] + s[1..];
    }
  }

  /** A match at the front is replaced and the scan continues behind it. */
  lemma ReplaceAllLeadingMatch(p: string, r: string, rest: string)
    requires |p| > 0
    ensures ReplaceAll(p + rest, p, r) == r + ReplaceAll(rest, p, r)
  {
    assert (p + rest)[|p|..] == rest;
  }

  /** A match at the front followed by text without the pattern: only the
      front match is replaced. */
  lemma ReplaceFront(p: string, r: string, mid: string, rest: string)
    requires |p| > 0 && !Occurs(mid + rest, p)
    ensures ReplaceAll(p + mid + rest, p, r) == r + mid + rest
  {
    var tail := mid + rest;
    assert p + mid + rest == p + tail;
    ReplaceAllLeadingMatch(p, r, tail);
    ReplaceAllWithoutMatch(tail, p, r);
  }

  /** Replacement distributes over a split where no match crosses the seam. */
  lemma {:induction false} ReplaceAllConcat(a: string, b: string, p: string, r: string)
    requires |p| > 0 && !Occurs(a, p)
    requires forall j :: 0 <= j < |a| ==> !(p <= (a + b)[j..])
    ensures ReplaceAll(a + b, p, r) == a + ReplaceAll(b, p, r)
    decreases |a|
  {
    if |a| > 0 {
      assert (a + b)[0..] == a + b;
      assert (a + b)[1..] == a[1..] + b;
      forall j | 0 <= j < |a[1..]| ensures !(p <= (a[1..] + b)[j..]) {
        assert (a[1..] + b)[j..] == (a + b)[j + 1..];
      }
      ReplaceAllConcat(a[1..], b, p, r);
    }
  }

  /** An occurrence in a tail is an occurrence in the whole. */
  lemma {:induction false} OccursInTail(t: string, p: string, k: nat)
    requires k <= |t|
    ensures Occurs(t[k..], p) ==> Occurs(t, p)
    decreases k
  {
    if k > 0 {
      assert t[1..][k - 1..] == t[k..];
      OccursInTail(t[1..], p, k - 1);
    }
  }

  /** A string lacking one of q's characters does not contain q. */
  lemma {:induction false} MissingCharacter(t: string, q: string, j: nat)
    requires j < |q|
    requires forall i :: 0 <= i < |t| ==> t[i] != q[j]
    ensures !Occurs(t, q)
    decreases |t|
  {
    var c := q[j];
    assert !(q <= t);
    if |t| > 0 {
      MissingCharacter(t[1..], q, j);
    }
  }

  /** A string in which q never starts cannot hold q. */
  lemma {:induction false} OnlyWhereOfAbsent(s: string, q: string, p: string)
    requires !Occurs(s, q)
    ensures OnlyWhere(s, q, p)
    decreases |s|
  {
    if |s| > 0 {
      OnlyWhereOfAbsent(s[1..], q, p);
    }
  }

  lemma {:induction false} OnlyWhereOfSelf(s: string, p: string)
    ensures OnlyWhere(s, p, p)
    decreases |s|
  {
    if |s| > 0 {
      OnlyWhereOfSelf(s[1..], p);
    }
  }

  lemma {:induction false} OnlyWhereOfTail(s: string, q: string, p: string, k: nat)
    requires k <= |s| && OnlyWhere(s, q, p)
    ensures OnlyWhere(s[k..], q, p)
    decreases k
  {
    if k > 0 {
      assert s[1..][k - 1..] == s[k..];
      OnlyWhereOfTail(s[1..], q, p, k - 1);
    }
  }

  /** Prefixing r keeps q out when r neither holds q nor ends with a start of q. */
  lemma {:induction false} NoOccurrenceAcross(u: string, x: string, q: string)
    requires |q| > 0 && !Occurs(u, q) && !Occurs(x, q)
    requires forall t :: 0 <= t < |u| ==> !(u[t..] < q)
    ensures !Occurs(u + x, q)
    decreases |u|
  {
    if |u| == 0 {
      assert u + x == x;
    } else {
      assert (u + x)[1..] == u[1..] + x;
      forall t | 0 <= t < |u[1..]| ensures !(u[1..][t..] < q) {
        assert u[1..][t..] == u[t + 1..];
      }
      NoOccurrenceAcross(u[1..], x, q);
      if |q| <= |u| {
        assert q <= u + x ==> q <= u;
      } else {
        assert u[0..] == u;
        assert q <= u + x ==> u < q;
      }
    }
  }

  /** A prefix of the output whose tails are all incompatible with r was copied
      from the input unchanged. */
  lemma {:induction false} PrefixSurvives(u: string, t: string, p: string, r: string)
    requires |p| > 0
    requires forall k :: 0 <= k < |u| ==> !(u[k..] <= r) && !(r <= u[k..])
    ensures u <= ReplaceAll(t, p, r) ==> u <= t
    decreases |t|
  {
    if |u| > 0 && |t| > 0 {
      assert u[0..] == u;
      if |u| <= |r| {
        assert p <= t && u <= ReplaceAll(t, p, r) ==> u <= r;
      } else {
        assert p <= t && u <= ReplaceAll(t, p, r) ==> r <= u;
      }
      forall k | 0 <= k < |u[1..]| ensures !(u[1..][k..] <= r) && !(r <= u[1..][k..]) {
        assert u[1..][k..] == u[k + 1..];
      }
      PrefixSurvives(u[1..], t[1..], p, r);
    }
  }

  /** Replacing p by r leaves no q behind, provided q only ever starts where p
      starts and r cannot assemble a new q with its neighbours. With q = p
      this says every match is gone. */
  lemma {:induction false} ReplaceAllLeavesNoMatch(s: string, p: string, r: string, q: string)
    requires |p| > 0 && |q| > 0
    requires NoStraddle(q, r) && OnlyWhere(s, q, p)
    ensures !Occurs(ReplaceAll(s, p, r), q)
    decreases |s|
  {
    var o := ReplaceAll(s, p, r);
    if |s| == 0 {
      assert o == [];
    } else if p <= s {
      OnlyWhereOfTail(s, q, p, |p|);
      ReplaceAllLeavesNoMatch(s[|p|..], p, r, q);
      NoOccurrenceAcross(r, ReplaceAll(s[|p|..], p, r), q);
    } else {
      assert OnlyWhere(s[1..], q, p);
      ReplaceAllLeavesNoMatch(s[1..], p, r, q);
      assert o[1..] == ReplaceAll(s[1..], p, r);
      forall k | 0 <= k < |q[1..]| ensures !(q[1..][k..] <= r) && !(r <= q[1..][k..]) {
        assert q[1..][k..] == q[k + 1..];
      }
      PrefixSurvives(q[1..], s[1..], p, r);
      var qTail, oTail := q[1..], o[1..];
      assert q <= o ==> qTail <= oTail;
      assert q <= o ==> q <= s;
    }
  }

  /** Replacement introduces no character that neither the input nor r holds. */
  lemma {:induction false} ReplaceAllKeepsOut(s: string, p: string, r: string, c: char)
    requires |p| > 0
    requires forall i :: 0 <= i < |s| ==> s[i] != c
    requires forall i :: 0 <= i < |r| ==> r[i] != c
    ensures forall i :: 0 <= i < |ReplaceAll(s, p, r)| ==> ReplaceAll(s, p, r)[i] != c
    decreases |s|
  {
    if |s| > 0 {
      if p <= s {
        ReplaceAllKeepsOut(s[|p|..], p, r, c);
      } else {
        ReplaceAllKeepsOut(s[1..], p, r, c);
      }
    }
  }

  /** Replacing one character by another rewrites exactly the positions holding it. */
  lemma {:induction false} ReplaceCharPointwise(s: string, c: char, d: char)
    ensures |ReplaceAll(s, [c], [d])| == |s|
    ensures forall i :: 0 <= i < |s| ==>
              ReplaceAll(s, [c], [d])[i] == (if s[i] == c then d else s[i])
    decreases |s|
  {
    if |s| > 0 {
      ReplaceCharPointwise(s[1..], c, d);
      assert [c] <= s <==> s[0] == c;
    }
  }

  // ---------------------------------------------------------------- strip

  /** Characters Python's `str.strip()` removes (`str.isspace`). */
  predicate IsSpace(c: char) {
    || c == ' ' || ('\t' <= c <= '\r') || ('\U{1c}' <= c <= '\U{1f}')
    || c == '\U{85}' || c == '\U{a0}' || c == '\U{1680}' || ('\U{2000}' <= c <= '\U{200a}')
    || c == '\U{2028}' || c == '\U{2029}' || c == '\U{202f}' || c == '\U{205f}' || c == '\U{3000}'
  }

  /** Index of the first non-space character (|s| if there is none). */
  function FirstKept(s: string): (i: nat)
    ensures i <= |s|
    ensures forall k :: 0 <= k < i ==> IsSpace(s[k])
    ensures i < |s| ==> !IsSpace(s[i])
    decreases |s|
  {
    if |s| == 0 || !IsSpace(s[0]) then 0 else 1 + FirstKept(s[1..])
  }

  /** One past the last non-space character (0 if there is none). */
  function LastKept(s: string): (j: nat)
    ensures j <= |s|
    ensures forall k :: j <= k < |s| ==> IsSpace(s[k])
    ensures j > 0 ==> !IsSpace(s[j - 1])
    decreases |s|
  {
    if |s| == 0 || !IsSpace(s[|s| - 1]) then |s| else LastKept(s[..|s| - 1])
  }

  /** `str.strip()`: drop leading and trailing whitespace. */
  function Strip(s: string): (t: string)
    ensures exists i, j ::
              && 0 <= i <= j <= |s| && t == s[i..j]
              && (forall k :: 0 <= k < i ==> IsSpace(s[k]))
              && (forall k :: j <= k < |s| ==> IsSpace(s[k]))
    ensures |t| > 0 ==> !IsSpace(t[0]) && !IsSpace(t[|t| - 1])
  {
    var i := FirstKept(s);
    var j := LastKept(s);
    if i < j then s[i..j]
    else
      assert s[0..0] == [];
      []
  }

  /** Stripping twice strips nothing more. */
  lemma StripIdempotent(s: string)
    ensures Strip(Strip(s)) == Strip(s)
  {
    var t := Strip(s);
    if |t| > 0 {
      assert FirstKept(t) == 0;
      assert LastKept(t) == |t|;
      assert t[0..|t|] == t;
    }
  }
}
