/**
 * The accumulation pattern shared by `get_fileset` and `flatten_dict`: walk
 * a sequence of inputs in order, turn each one into a dictionary (or fail
 * with an exception) and merge it into the accumulator as
 * `acc = {**acc, **new}`, so that a later input overwrites the keys of an
 * earlier one. A single-key assignment `acc[k] = v` (count mode of
 * `get_fileset`, the squeeze branch of `flatten_dict`) is the merge of the
 * one-entry map `map[k := v]`.
 */
module Merge {
  import opened Wrappers

  /** Fold of `{**acc, **step(x)}` over `xs`; the first failing step aborts the fold with its error. */
  function MergeFrom<X, K, V, E>(step: X --> Result<map<K, V>, E>, xs: seq<X>, acc: map<K, V>): Result<map<K, V>, E>
    requires forall i :: 0 <= i < |xs| ==> step.requires(xs[i])
    decreases |xs|
  {
    if xs == [] then Ok(acc)
    else match step(xs[0])
      case Err(e) => Err(e)
      case Ok(m) => MergeFrom(step, xs[1..], acc + m)
  }

  /** The step for `x` succeeds and produces key `k`. */
  ghost predicate Writes<X, K, V, E>(step: X --> Result<map<K, V>, E>, x: X, k: K)
    requires step.requires(x)
  {
    step(x).Ok? && k in step(x).value
  }

  /** Input `i` is the last one whose step produces key `k`. */
  ghost predicate LastWriter<X, K, V, E>(step: X --> Result<map<K, V>, E>, xs: seq<X>, k: K, i: int)
    requires forall i :: 0 <= i < |xs| ==> step.requires(xs[i])
  {
    && 0 <= i < |xs|
    && Writes(step, xs[i], k)
    && forall j :: i < j < |xs| ==> !Writes(step, xs[j], k)
  }

  /** The fold succeeds exactly when every step does; otherwise it reports the first failure. */
  lemma {:induction false} MergeFromOkIff<X, K, V, E>(step: X --> Result<map<K, V>, E>, xs: seq<X>, acc: map<K, V>)
    requires forall i :: 0 <= i < |xs| ==> step.requires(xs[i])
    ensures MergeFrom(step, xs, acc).Ok? <==> forall i :: 0 <= i < |xs| ==> step(xs[i]).Ok?
    ensures MergeFrom(step, xs, acc).Err? ==>
      exists i :: 0 <= i < |xs| && step(xs[i]) == Err(MergeFrom(step, xs, acc).error) &&
        forall j :: 0 <= j < i ==> step(xs[j]).Ok?
    decreases |xs|
  {
    if xs != [] {
      match step(xs[0])
      case Err(e) =>
      case Ok(m) =>
        MergeFromOkIff(step, xs[1..], acc + m);
        assert forall i :: 1 <= i < |xs| ==> xs[1..][i - 1] == xs[i];
        if MergeFrom(step, xs, acc).Err? {
          var i :| 0 <= i < |xs[1..]| && step(xs[1..][i]) == Err(MergeFrom(step, xs, acc).error) &&
            forall j :: 0 <= j < i ==> step(xs[1..][j]).Ok?;
          assert step(xs[i + 1]) == Err(MergeFrom(step, xs, acc).error);
          assert forall j :: 0 <= j < i + 1 ==> step(xs[j]).Ok? by {
            forall j | 0 <= j < i + 1 ensures step(xs[j]).Ok? {
              if j > 0 { assert xs[j] == xs[1..][j - 1]; }
            }
          }
        }
    }
  }

  /** One more input at the end merges its dictionary into the result: its keys win, all others stay. */
  lemma {:induction false} MergeFromSnoc<X, K, V, E>(step: X --> Result<map<K, V>, E>, xs: seq<X>, x: X, acc: map<K, V>)
    requires forall i :: 0 <= i < |xs| ==> step.requires(xs[i])
    requires step.requires(x)
    ensures MergeFrom(step, xs + [x], acc) ==
      match MergeFrom(step, xs, acc)
      case Err(e) => Err(e)
      case Ok(m) => (match step(x) case Err(e) => Err(e) case Ok(n) => Ok(m + n))
    decreases |xs|
  {
    if xs == [] {
      assert [x][1..] == [];
    } else {
      assert (xs + [x])[0] == xs[0] && (xs + [x])[1..] == xs[1..] + [x];
      match step(xs[0])
      case Err(e) =>
      case Ok(m) => MergeFromSnoc(step, xs[1..], x, acc + m);
    }
  }

  /**
   * Which value each key ends up with: the result holds the accumulator's
   * keys and every key some step produced; a key takes the value of the
   * last step that produced it, and a key no step produced keeps the
   * accumulator's value.
   */
  lemma {:induction false} MergeFromLastWriter<X, K, V, E>(step: X --> Result<map<K, V>, E>, xs: seq<X>, acc: map<K, V>, m: map<K, V>)
    requires forall i :: 0 <= i < |xs| ==> step.requires(xs[i])
    requires MergeFrom(step, xs, acc) == Ok(m)
    ensures forall k :: k in m <==> k in acc || exists i :: 0 <= i < |xs| && Writes(step, xs[i], k)
    ensures forall k, i ::
      && 0 <= i < |xs| && Writes(step, xs[i], k)
      && (forall j :: i < j < |xs| ==> !Writes(step, xs[j], k))
      ==> k in m && m[k] == step(xs[i]).value[k]
    ensures forall k :: k in acc && (forall j :: 0 <= j < |xs| ==> !Writes(step, xs[j], k)) ==> k in m && m[k] == acc[k]
    decreases |xs|
  {
    if xs != [] {
      var n := step(xs[0]).value;
      var rest := xs[1..];
      MergeFromLastWriter(step, rest, acc + n, m);
      assert forall i :: 1 <= i < |xs| ==> rest[i - 1] == xs[i];
      forall k ensures k in m <==> k in acc || exists i :: 0 <= i < |xs| && Writes(step, xs[i], k) {
        if k in m && k !in acc && k !in n {
          var i :| 0 <= i < |rest| && Writes(step, rest[i], k);
          assert Writes(step, xs[i + 1], k);
        }
        if exists i :: 0 <= i < |xs| && Writes(step, xs[i], k) {
          var i :| 0 <= i < |xs| && Writes(step, xs[i], k);
          if i > 0 { assert Writes(step, rest[i - 1], k); }
        }
      }
      forall k, i | 0 <= i < |xs| && Writes(step, xs[i], k) && (forall j :: i < j < |xs| ==> !Writes(step, xs[j], k))
        ensures k in m && m[k] == step(xs[i]).value[k]
      {
        assert forall j :: 0 <= j < |rest| ==> rest[j] == xs[j + 1];
        if i > 0 {
          assert Writes(step, rest[i - 1], k);
        }
      }
      forall k | k in acc && (forall j :: 0 <= j < |xs| ==> !Writes(step, xs[j], k))
        ensures k in m && m[k] == acc[k]
      {
        assert !Writes(step, xs[0], k);
        assert forall j :: 0 <= j < |rest| ==> rest[j] == xs[j + 1];
      }
    }
  }

  /** Every key of the result was produced last by some step, or by none and then comes from the accumulator. */
  lemma {:induction false} MergeFromValue<X, K, V, E>(step: X --> Result<map<K, V>, E>, xs: seq<X>, acc: map<K, V>, m: map<K, V>)
    requires forall i :: 0 <= i < |xs| ==> step.requires(xs[i])
    requires MergeFrom(step, xs, acc) == Ok(m)
    ensures forall k :: k in m ==>
      || (exists i :: LastWriter(step, xs, k, i) && m[k] == step(xs[i]).value[k])
      || ((forall j :: 0 <= j < |xs| ==> !Writes(step, xs[j], k)) && k in acc && m[k] == acc[k])
    decreases |xs|
  {
    if xs != [] {
      var n := step(xs[0]).value;
      var rest := xs[1..];
      MergeFromValue(step, rest, acc + n, m);
      forall k | k in m
        ensures || (exists i :: LastWriter(step, xs, k, i) && m[k] == step(xs[i]).value[k])
                || ((forall j :: 0 <= j < |xs| ==> !Writes(step, xs[j], k)) && k in acc && m[k] == acc[k])
      {
        assert forall j :: 0 <= j < |rest| ==> rest[j] == xs[j + 1];
        if i :| LastWriter(step, rest, k, i) && m[k] == step(rest[i]).value[k] {
          assert LastWriter(step, xs, k, i + 1);
        } else if k in n {
          assert LastWriter(step, xs, k, 0);
        }
      }
    }
  }
}
