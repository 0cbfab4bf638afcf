/** Dictionaries filled entry by entry, as Python's `dict` is filled in the
    loops of the mapping builders. */
module Maps {

  /** `d.get(k, default)`. */
  function GetOr(d: map<string, string>, k: string, default: string): (r: string)
    ensures k in d ==> r == d[k]
    ensures k !in d ==> r == default
  {
    if k in d then d[k] else default
  }

  /** `d[k] = v` for every pair, in order: a later pair overwrites an earlier one. */
  function LastWins(pairs: seq<(string, string)>): map<string, string>
  {
    if pairs == [] then map[]
    else LastWins(pairs[..|pairs| - 1])[pairs[|pairs| - 1].0 := pairs[|pairs| - 1].1]
  }

  /** `if k not in d: d[k] = v` for every pair, in order: the first pair for a key stays. */
  function FirstWins(pairs: seq<(string, string)>): map<string, string>
  {
    if pairs == [] then map[]
    else
      var d := FirstWins(pairs[..|pairs| - 1]);
      if pairs[|pairs| - 1].0 in d then d else d[pairs[|pairs| - 1].0 := pairs[|pairs| - 1].1]
  }

  /** A key is present exactly when some pair has it. */
  lemma {:induction false} LastWinsKeys(pairs: seq<(string, string)>)
    ensures forall k :: k in LastWins(pairs) <==> exists i :: 0 <= i < |pairs| && pairs[i].0 == k
    decreases |pairs|
  {
    if pairs != [] {
      var init := pairs[..|pairs| - 1];
      LastWinsKeys(init);
      forall k ensures k in LastWins(pairs) <==> exists i :: 0 <= i < |pairs| && pairs[i].0 == k {
        if k in LastWins(init) {
          var i :| 0 <= i < |init| && init[i].0 == k;
          assert pairs[i].0 == k;
        }
        if exists i :: 0 <= i < |pairs| && pairs[i].0 == k {
          var i :| 0 <= i < |pairs| && pairs[i].0 == k;
          if i < |init| { assert init[i].0 == k; }
        }
      }
    }
  }

  /** The value kept for a key is that of the last pair with the key. */
  lemma {:induction false} LastWinsValue(pairs: seq<(string, string)>, i: nat)
    requires i < |pairs|
    requires forall j :: i < j < |pairs| ==> pairs[j].0 != pairs[i].0
    ensures pairs[i].0 in LastWins(pairs) && LastWins(pairs)[pairs[i].0] == pairs[i].1
    decreases |pairs|
  {
    if i < |pairs| - 1 {
      var init := pairs[..|pairs| - 1];
      assert init[i] == pairs[i];
      LastWinsValue(init, i);
    }
  }

  lemma {:induction false} FirstWinsKeys(pairs: seq<(string, string)>)
    ensures forall k :: k in FirstWins(pairs) <==> exists i :: 0 <= i < |pairs| && pairs[i].0 == k
    decreases |pairs|
  {
    if pairs != [] {
      var init := pairs[..|pairs| - 1];
      FirstWinsKeys(init);
      forall k ensures k in FirstWins(pairs) <==> exists i :: 0 <= i < |pairs| && pairs[i].0 == k {
        if k in FirstWins(init) {
          var i :| 0 <= i < |init| && init[i].0 == k;
          assert pairs[i].0 == k;
        }
        if exists i :: 0 <= i < |pairs| && pairs[i].0 == k {
          var i :| 0 <= i < |pairs| && pairs[i].0 == k;
          if i < |init| { assert init[i].0 == k; }
        }
      }
    }
  }

  /** The value kept for a key is that of the first pair with the key. */
  lemma {:induction false} FirstWinsValue(pairs: seq<(string, string)>, i: nat)
    requires i < |pairs|
    requires forall j :: 0 <= j < i ==> pairs[j].0 != pairs[i].0
    ensures pairs[i].0 in FirstWins(pairs) && FirstWins(pairs)[pairs[i].0] == pairs[i].1
    decreases |pairs|
  {
    var init := pairs[..|pairs| - 1];
    if i < |pairs| - 1 {
      assert init[i] == pairs[i];
      FirstWinsValue(init, i);
    } else {
      FirstWinsKeys(init);
      forall j | 0 <= j < |init| ensures init[j].0 != pairs[i].0 {
        assert init[j] == pairs[j];
      }
      assert pairs[i].0 !in FirstWins(init);
    }
  }

  /** One more pair overwrites its key. */
  lemma LastWinsSnoc(pairs: seq<(string, string)>, k: string, v: string)
    ensures LastWins(pairs + [(k, v)]) == LastWins(pairs)[k := v]
  {
    assert (pairs + [(k, v)])[..|pairs|] == pairs;
  }

  /** One more pair only fills a key not seen before. */
  lemma FirstWinsSnoc(pairs: seq<(string, string)>, k: string, v: string)
    ensures FirstWins(pairs + [(k, v)]) == if k in FirstWins(pairs) then FirstWins(pairs) else FirstWins(pairs)[k := v]
  {
    assert (pairs + [(k, v)])[..|pairs|] == pairs;
  }

  /** Every entry of the mapping is one of the pairs. */
  lemma {:induction false} LastWinsFrom(pairs: seq<(string, string)>, k: string)
    requires k in LastWins(pairs)
    ensures exists i :: 0 <= i < |pairs| && pairs[i] == (k, LastWins(pairs)[k])
    decreases |pairs|
  {
    var init := pairs[..|pairs| - 1];
    if pairs[|pairs| - 1].0 != k {
      LastWinsFrom(init, k);
      var i :| 0 <= i < |init| && init[i] == (k, LastWins(init)[k]);
      assert pairs[i] == init[i];
    }
  }

  /** Every entry of the mapping is one of the pairs. */
  lemma {:induction false} FirstWinsFrom(pairs: seq<(string, string)>, k: string)
    requires k in FirstWins(pairs)
    ensures exists i :: 0 <= i < |pairs| && pairs[i] == (k, FirstWins(pairs)[k])
    decreases |pairs|
  {
    var init := pairs[..|pairs| - 1];
    if k in FirstWins(init) {
      FirstWinsFrom(init, k);
      var i :| 0 <= i < |init| && init[i] == (k, FirstWins(init)[k]);
      assert pairs[i] == init[i];
    }
  }
}
