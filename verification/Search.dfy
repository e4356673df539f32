/** First occurrence of a pattern in a sequence. */
module Search {
  import opened Prelude

  predicate OccursAt<T(==)>(text: seq<T>, pattern: seq<T>, i: nat) {
    i + |pattern| <= |text| && text[i..i + |pattern|] == pattern
  }

  /** No occurrence starts before position `k`. */
  ghost predicate NoneBefore<T>(text: seq<T>, pattern: seq<T>, k: nat) {
    forall i: nat | i < k :: !OccursAt(text, pattern, i)
  }

  ghost predicate FirstAt<T>(text: seq<T>, pattern: seq<T>, i: nat) {
    OccursAt(text, pattern, i) && NoneBefore(text, pattern, i)
  }

  /** Where the first occurrence starts, if there is one. */
  ghost function Find<T>(text: seq<T>, pattern: seq<T>): (r: Option<nat>)
    ensures r.Some? ==> FirstAt(text, pattern, r.value)
  {
    if exists i: nat :: FirstAt(text, pattern, i) then
      var i: nat :| FirstAt(text, pattern, i);
      Some(i)
    else None
  }

  lemma FindAt<T>(text: seq<T>, pattern: seq<T>, k: nat)
    requires FirstAt(text, pattern, k)
    ensures Find(text, pattern) == Some(k)
  {
    assert FirstAt(text, pattern, Find(text, pattern).value);
  }

  /** If there is an occurrence there is a first one. */
  lemma {:induction false} FindComplete<T>(text: seq<T>, pattern: seq<T>, k: nat)
    requires OccursAt(text, pattern, k)
    ensures Find(text, pattern).Some? && Find(text, pattern).value <= k
  {
    if i: nat :| i < k && OccursAt(text, pattern, i) {
      FindComplete(text, pattern, i);
    } else {
      assert FirstAt(text, pattern, k);
      FindAt(text, pattern, k);
    }
  }

  lemma OccursShift<T>(front: seq<T>, rest: seq<T>, pattern: seq<T>, i: nat)
    ensures OccursAt(front + rest, pattern, |front| + i) <==> OccursAt(rest, pattern, i)
  {
    if i + |pattern| <= |rest| {
      assert (front + rest)[|front| + i..|front| + i + |pattern|] == rest[i..i + |pattern|];
    }
  }

  /** Skipping a front part in which no occurrence starts. */
  lemma FindSkip<T>(front: seq<T>, rest: seq<T>, pattern: seq<T>)
    requires NoneBefore(front + rest, pattern, |front|)
    ensures var r := Find(rest, pattern);
            Find(front + rest, pattern) == if r.Some? then Some(|front| + r.value) else None
  {
    var r, s, k := Find(rest, pattern), Find(front + rest, pattern), |front|;
    if r.Some? {
      OccursShift(front, rest, pattern, r.value);
      forall i: nat | i < k + r.value ensures !OccursAt(front + rest, pattern, i) {
        if i >= k { OccursShift(front, rest, pattern, i - k); }
      }
      FindAt(front + rest, pattern, k + r.value);
    } else if s.Some? {
      OccursShift(front, rest, pattern, s.value - k);
      FindComplete(rest, pattern, s.value - k);
    }
  }
}
