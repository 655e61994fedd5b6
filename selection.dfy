/**
 * The running-maximum scan of `searchAnswer`, over the scores alone: the
 * best score starts at 0 and is replaced only by a strictly higher one, so
 * the scan keeps the first index attaining the highest positive score.
 */
module Selection {
  import opened Wrappers

  /** The highest score, 0 for none. */
  function Max(s: seq<nat>): (m: nat)
    ensures forall i :: 0 <= i < |s| ==> s[i] <= m
    ensures m == 0 || exists i :: 0 <= i < |s| && s[i] == m
  {
    if s == [] then 0
    else
      var m := Max(s[..|s| - 1]);
      if s[|s| - 1] > m then s[|s| - 1] else m
  }

  /** The first index holding `m`, or `|s|` if there is none. */
  function FirstWith(s: seq<nat>, m: nat): (k: nat)
    ensures k <= |s|
    ensures k < |s| ==> s[k] == m
    ensures forall j :: 0 <= j < k ==> s[j] != m
  {
    if s == [] then 0
    else
      var k := FirstWith(s[..|s| - 1], m);
      if k < |s| - 1 then k
      else if s[|s| - 1] == m then |s| - 1
      else |s|
  }

  /** Index `k` holds a positive score, no score is higher, and every score
      before it is lower. */
  ghost predicate IsFirstMax(s: seq<nat>, k: int) {
    && 0 <= k < |s|
    && s[k] > 0
    && (forall j :: 0 <= j < |s| ==> s[j] <= s[k])
    && (forall j :: 0 <= j < k ==> s[j] < s[k])
  }

  /** The first index of the highest positive score; none exactly when every
      score is 0. */
  function ArgMax(s: seq<nat>): (b: Option<nat>)
    ensures b.Some? ==> IsFirstMax(s, b.value)
    ensures b.None? <==> forall j :: 0 <= j < |s| ==> s[j] == 0
  {
    var m := Max(s);
    if m == 0 then None
    else
      var k := FirstWith(s, m);
      assert k < |s| by {
        var i :| 0 <= i < |s| && s[i] == m;
      }
      Some(k)
  }

  /** Only one index is the first maximum. */
  lemma FirstMaxUnique(s: seq<nat>, k1: int, k2: int)
    requires IsFirstMax(s, k1) && IsFirstMax(s, k2)
    ensures k1 == k2
  {
    assert !(s[k1] < s[k2]) && !(s[k2] < s[k1]);
  }

  /** `ArgMax` picks exactly the first maximum. */
  lemma ArgMaxIff(s: seq<nat>, k: int)
    ensures ArgMax(s) == Some(k) <==> IsFirstMax(s, k)
  {
    if IsFirstMax(s, k) {
      FirstMaxUnique(s, ArgMax(s).value, k);
    }
  }

  /** The highest score is the score at `ArgMax`, 0 when there is none. */
  lemma MaxAtArgMax(s: seq<nat>)
    ensures Max(s) == match ArgMax(s) case Some(k) => s[k] case None => 0
  {
    if Max(s) > 0 {
      var i :| 0 <= i < |s| && s[i] == Max(s);
    }
  }

  /** One step of the scan: over one more score, the maximum and the kept
      index change exactly when the new score is strictly higher. */
  lemma {:induction false} ScanStep(s: seq<nat>, k: nat)
    requires k < |s|
    ensures Max(s[..k + 1]) == if s[k] > Max(s[..k]) then s[k] else Max(s[..k])
    ensures ArgMax(s[..k + 1]) == if s[k] > Max(s[..k]) then Some(k) else ArgMax(s[..k])
  {
    var pre, ext := s[..k], s[..k + 1];
    assert ext[..k] == pre;
    var m := Max(pre);
    if s[k] > m {
      var f := FirstWith(pre, s[k]);
      assert f == k;
    } else if m > 0 {
      var i :| 0 <= i < k && pre[i] == m;
      var f := FirstWith(pre, m);
      assert f < k;
    }
  }

  /** The index `k` of a sequence once a score has been inserted at `n`. */
  function ShiftPast(b: Option<nat>, n: nat): Option<nat> {
    match b
    case Some(k) => Some(if k < n then k else k + 1)
    case None => None
  }

  lemma InsertZeroKeepsFirstMax(p: seq<nat>, q: seq<nat>, k: nat)
    requires IsFirstMax(p + q, k)
    ensures IsFirstMax(p + [0] + q, if k < |p| then k else k + 1)
  {
    var with, without := p + [0] + q, p + q;
    var k' := if k < |p| then k else k + 1;
    assert with[k'] == without[k];
    forall j | 0 <= j < |with|
      ensures with[j] <= with[k']
    {
      if j < |p| {
        assert with[j] == without[j];
      } else if j > |p| {
        assert with[j] == without[j - 1];
      }
    }
    forall j | 0 <= j < k'
      ensures with[j] < with[k']
    {
      if j < |p| {
        assert with[j] == without[j] && j < k;
      } else if j > |p| {
        assert with[j] == without[j - 1] && j - 1 < k;
      }
    }
  }

  lemma InsertZeroKeepsZeros(p: seq<nat>, q: seq<nat>)
    requires forall j :: 0 <= j < |p + q| ==> (p + q)[j] == 0
    ensures forall j :: 0 <= j < |p + [0] + q| ==> (p + [0] + q)[j] == 0
  {
    var with, without := p + [0] + q, p + q;
    forall j | 0 <= j < |with|
      ensures with[j] == 0
    {
      if j < |p| {
        assert with[j] == without[j];
      } else if j > |p| {
        assert with[j] == without[j - 1];
      }
    }
  }

  /** Max and ArgMax once a 0 is inserted, when there is a first maximum. */
  lemma ZeroIgnoredSome(p: seq<nat>, q: seq<nat>, k: nat)
    requires ArgMax(p + q) == Some(k)
    ensures ArgMax(p + [0] + q) == Some(if k < |p| then k else k + 1)
    ensures Max(p + [0] + q) == Max(p + q)
  {
    var with, without := p + [0] + q, p + q;
    var k' := if k < |p| then k else k + 1;
    InsertZeroKeepsFirstMax(p, q, k);
    ArgMaxIff(with, k');
    MaxAtArgMax(with);
    MaxAtArgMax(without);
    assert with[k'] == without[k];
  }

  /** Max and ArgMax once a 0 is inserted, when every score is 0. */
  lemma ZeroIgnoredNone(p: seq<nat>, q: seq<nat>)
    requires ArgMax(p + q) == None
    ensures ArgMax(p + [0] + q) == None
    ensures Max(p + [0] + q) == 0 == Max(p + q)
  {
    InsertZeroKeepsZeros(p, q);
    MaxAtArgMax(p + [0] + q);
    MaxAtArgMax(p + q);
  }

  /** A score of 0 plays no part: inserting one anywhere leaves the maximum
      and shifts the kept index past it. */
  lemma ZeroIgnored(p: seq<nat>, q: seq<nat>)
    ensures Max(p + [0] + q) == Max(p + q)
    ensures ArgMax(p + [0] + q) == ShiftPast(ArgMax(p + q), |p|)
  {
    match ArgMax(p + q)
    case Some(k) => ZeroIgnoredSome(p, q, k);
    case None => ZeroIgnoredNone(p, q);
  }
}
