/**
 The loop in `run` that maps every discovered log path to the records of
 that log. Discovering the paths and parsing a log are outside this model:
 the paths are given in discovery order and the parser is a function
 from a path to what it reports.
 */
module Results {
  import opened Vibs

  /**
   The dictionary left by assigning `valueOf(k)` to each key of `keys` in
   turn, as a fold: a later assignment to a key overwrites an earlier one.
   */
  function AssignAll<K, W>(keys: seq<K>, valueOf: K -> W): map<K, W>
    decreases |keys|
  {
    if |keys| == 0 then map[]
    else AssignAll(keys[..|keys| - 1], valueOf)[keys[|keys| - 1] := valueOf(keys[|keys| - 1])]
  }

  /** The assignments leave exactly the keys given, each mapped to its own value. */
  lemma {:induction false} AssignAllContents<K, W>(keys: seq<K>, valueOf: K -> W)
    ensures forall k :: k in AssignAll(keys, valueOf) <==> k in keys
    ensures forall k :: k in AssignAll(keys, valueOf) ==> AssignAll(keys, valueOf)[k] == valueOf(k)
    decreases |keys|
  {
    if |keys| > 0 {
      var n := |keys| - 1;
      AssignAllContents(keys[..n], valueOf);
      PrefixMembers(keys, n);
      assert keys[..n + 1] == keys;
    }
  }

  /** There is one entry per key exactly when no key repeats. */
  lemma {:induction false} AssignAllSize<K, W>(keys: seq<K>, valueOf: K -> W)
    ensures |AssignAll(keys, valueOf)| <= |keys|
    ensures |AssignAll(keys, valueOf)| == |keys| <==> Distinct(keys)
    decreases |keys|
  {
    if |keys| > 0 {
      var n := |keys| - 1;
      AssignAllSize(keys[..n], valueOf);
      AssignAllContents(keys[..n], valueOf);
      DistinctExtend(keys, n);
      UpdateSize(AssignAll(keys[..n], valueOf), keys[n], valueOf(keys[n]));
      assert keys[..n + 1] == keys;
    }
  }

  /**
   The loop that assigns `valueOf(k)` to each key `k` in turn: every key
   appears, each with its own value, a repeated key overwrites its entry,
   so there is one entry per distinct key.
   */
  method AssignEach<K, W>(keys: seq<K>, valueOf: K -> W) returns (m: map<K, W>)
    ensures forall k :: k in m <==> k in keys
    ensures forall k :: k in m ==> m[k] == valueOf(k)
    ensures |m| <= |keys|
    ensures |m| == |keys| <==> Distinct(keys)
  {
    m := map[];
    var i := 0;
    while i < |keys|
      invariant 0 <= i <= |keys|
      invariant m == AssignAll(keys[..i], valueOf)
    {
      assert keys[..i + 1][..i] == keys[..i];
      m := m[keys[i] := valueOf(keys[i])];
      i := i + 1;
    }
    assert keys[..i] == keys;
    AssignAllContents(keys, valueOf);
    AssignAllSize(keys, valueOf);
  }

  /**
   The loop in `run`: `imgvib_dict[orca_log_fn] = vibs_from_orca_log(orca_log_fn)`
   for every discovered path. Each path is a key mapped to its own log's
   records; a repeated path overwrites rather than merges, so there is one
   key per distinct path.
   */
  method CollectResults<V>(logPaths: seq<string>, parse: string -> OrcaLog<V>)
    returns (imgvibDict: map<string, seq<ImgVib<V>>>)
    ensures forall p :: p in imgvibDict <==> p in logPaths
    ensures forall p :: p in imgvibDict ==> imgvibDict[p] == VibsFromOrcaLog(parse(p))
    ensures |imgvibDict| <= |logPaths|
    ensures |imgvibDict| == |logPaths| <==> Distinct(logPaths)
  {
    imgvibDict := AssignEach(logPaths, (orcaLogFn: string) => VibsFromOrcaLog(parse(orcaLogFn)));
  }

  /** Assigning to a key adds an entry only when the key is new. */
  lemma UpdateSize<K, W>(m: map<K, W>, k: K, v: W)
    ensures |m[k := v]| == if k in m then |m| else |m| + 1
  {
    if k in m {
      assert m[k := v].Keys == m.Keys;
    } else {
      assert m[k := v].Keys == m.Keys + {k};
    }
  }

  /** The members of a prefix one element longer. */
  lemma PrefixMembers<T>(s: seq<T>, i: nat)
    requires i < |s|
    ensures forall x :: x in s[..i + 1] <==> x in s[..i] || x == s[i]
  {
    assert s[..i + 1] == s[..i] + [s[i]];
  }

  /** A prefix stays duplicate-free when the next element is new to it. */
  lemma DistinctExtend<T>(s: seq<T>, i: nat)
    requires i < |s|
    ensures Distinct(s[..i + 1]) <==> Distinct(s[..i]) && s[i] !in s[..i]
  {
    var a, b := s[..i], s[..i + 1];
    if Distinct(a) && s[i] !in a {
      forall x, y | 0 <= x < y < |b|
        ensures b[x] != b[y]
      {
        if y == i {
          assert b[x] == a[x];
        }
      }
    }
    if Distinct(b) {
      assert forall x :: 0 <= x < i ==> a[x] == b[x] && b[x] != b[i];
    }
  }
}
