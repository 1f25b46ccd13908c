/** The timeout defaulting loop, over a default table given as its entries in
    iteration order. The loader runs it on its fixed four-entry table; the
    proofs here hold for any table whose keys are distinct. */
module TimeoutDefaults {
  import opened PyValue
  import opened Notices

  /** Keys with their default number of seconds, in the table's key order. */
  type Table = seq<(string, int)>

  predicate DistinctKeys(table: Table) {
    forall i, j :: 0 <= i < j < |table| ==> table[i].0 != table[j].0
  }

  /** The keys of the first `n` entries. */
  function KeysBefore(table: Table, n: nat): set<string>
    requires n <= |table|
  {
    set i | 0 <= i < n :: table[i].0
  }

  /** The first `n` entries as a mapping from key to default, built entry
      by entry as a dict display is. */
  function DictOf(table: Table, n: nat): map<string, Value>
    requires n <= |table|
  {
    if n == 0 then map[] else DictOf(table, n - 1)[table[n - 1].0 := Int(table[n - 1].1)]
  }

  /** The table as a mapping from key to its default. */
  function AsMapping(table: Table): map<string, Value> {
    DictOf(table, |table|)
  }

  /** The first `n` entries' mapping holds exactly their keys. */
  lemma {:induction false} DictOfKeys(table: Table, n: nat)
    requires n <= |table|
    ensures DictOf(table, n).Keys == KeysBefore(table, n)
  {
    if n > 0 {
      DictOfKeys(table, n - 1);
      assert KeysBefore(table, n) == KeysBefore(table, n - 1) + {table[n - 1].0};
    }
  }

  /** Each of the first `n` keys maps to its own default, the keys being
      distinct. */
  lemma {:induction false} DictOfValues(table: Table, n: nat)
    requires DistinctKeys(table) && n <= |table|
    ensures forall i :: 0 <= i < n ==> table[i].0 in DictOf(table, n) && DictOf(table, n)[table[i].0] == Int(table[i].1)
  {
    if n > 0 {
      DictOfValues(table, n - 1);
      forall i | 0 <= i < n - 1
        ensures table[i].0 in DictOf(table, n) && DictOf(table, n)[table[i].0] == Int(table[i].1)
      {
        assert table[i].0 != table[n - 1].0;
      }
    }
  }

  /** The mapping holds exactly the table's keys, each with its default. */
  lemma AsMappingSpec(table: Table)
    requires DistinctKeys(table)
    ensures AsMapping(table).Keys == KeysBefore(table, |table|)
    ensures forall i :: 0 <= i < |table| ==> AsMapping(table)[table[i].0] == Int(table[i].1)
  {
    DictOfKeys(table, |table|);
    DictOfValues(table, |table|);
  }

  /** The timeouts after the first `n` rounds of the loop, each round
      checking the running mapping. */
  function FillDefaults(table: Table, user: map<string, Value>, n: nat): map<string, Value>
    requires n <= |table|
  {
    if n == 0 then user
    else
      var m := FillDefaults(table, user, n - 1);
      var key := table[n - 1].0;
      if Falsy(Get(m, key)) then m[key := Int(table[n - 1].1)] else m
  }

  /** The loop adds the table keys of its rounds and drops no key. */
  lemma {:induction false} FillDefaultsKeys(table: Table, user: map<string, Value>, n: nat)
    requires n <= |table|
    ensures FillDefaults(table, user, n).Keys == user.Keys + KeysBefore(table, n)
  {
    if n > 0 {
      FillDefaultsKeys(table, user, n - 1);
      var m := FillDefaults(table, user, n - 1);
      var key := table[n - 1].0;
      assert KeysBefore(table, n) == KeysBefore(table, n - 1) + {key};
      if !Falsy(Get(m, key)) {
        assert key in m;
      }
    }
  }

  /** A key outside the rounds run so far keeps the user's value, or stays
      absent. */
  lemma {:induction false} FillDefaultsKeepsOthers(table: Table, user: map<string, Value>, n: nat)
    requires n <= |table|
    ensures forall key :: key !in KeysBefore(table, n) ==> Get(FillDefaults(table, user, n), key) == Get(user, key)
  {
    if n > 0 {
      FillDefaultsKeepsOthers(table, user, n - 1);
      assert KeysBefore(table, n) == KeysBefore(table, n - 1) + {table[n - 1].0};
    }
  }

  /** A key of a round run so far holds the default when the user's value
      was missing or falsy, and the user's value otherwise. */
  lemma {:induction false} FillDefaultsTableKeys(table: Table, user: map<string, Value>, n: nat)
    requires DistinctKeys(table) && n <= |table|
    ensures forall i :: 0 <= i < n ==>
              && table[i].0 in FillDefaults(table, user, n)
              && FillDefaults(table, user, n)[table[i].0]
                 == if Falsy(Get(user, table[i].0)) then Int(table[i].1) else user[table[i].0]
  {
    if n > 0 {
      FillDefaultsTableKeys(table, user, n - 1);
      FillDefaultsKeepsOthers(table, user, n - 1);
      var m := FillDefaults(table, user, n - 1);
      var key := table[n - 1].0;
      assert key !in KeysBefore(table, n - 1);
      assert Get(m, key) == Get(user, key);
      forall i | 0 <= i < n - 1
        ensures table[i].0 in FillDefaults(table, user, n)
        ensures FillDefaults(table, user, n)[table[i].0] == m[table[i].0]
      {
        assert table[i].0 != key;
      }
    }
  }

  /** After the first `n` rounds a key of those rounds whose user value was
      missing or falsy holds its default; every other key keeps the user's
      value, and no key is dropped. */
  lemma FillDefaultsSpec(table: Table, user: map<string, Value>, n: nat)
    requires DistinctKeys(table) && n <= |table|
    ensures FillDefaults(table, user, n).Keys == user.Keys + KeysBefore(table, n)
    ensures forall key :: key !in KeysBefore(table, n) ==> Get(FillDefaults(table, user, n), key) == Get(user, key)
    ensures forall i :: 0 <= i < n ==>
              FillDefaults(table, user, n)[table[i].0]
              == if Falsy(Get(user, table[i].0)) then Int(table[i].1) else user[table[i].0]
  {
    FillDefaultsKeys(table, user, n);
    FillDefaultsKeepsOthers(table, user, n);
    FillDefaultsTableKeys(table, user, n);
  }

  /** The "not provided" notices of the first `n` rounds of the loop, decided
      on the user's values. */
  function DefaultNotices(table: Table, user: map<string, Value>, n: nat): seq<Notice>
    requires n <= |table|
  {
    if n == 0 then []
    else
      DefaultNotices(table, user, n - 1)
      + if Falsy(Get(user, table[n - 1].0)) then [TimeoutDefaulted(table[n - 1].0, table[n - 1].1)] else []
  }

  /** A notice is logged for exactly the keys that are defaulted, each with
      its default. */
  lemma {:induction false} DefaultNoticesMembers(table: Table, user: map<string, Value>, n: nat)
    requires n <= |table|
    ensures forall e :: e in DefaultNotices(table, user, n) <==>
              exists i :: 0 <= i < n && Falsy(Get(user, table[i].0)) && e == TimeoutDefaulted(table[i].0, table[i].1)
  {
    if n > 0 {
      DefaultNoticesMembers(table, user, n - 1);
    }
  }

  /** The notices come in the order of the table. */
  lemma {:induction false} DefaultNoticesInTableOrder(table: Table, user: map<string, Value>, n: nat)
    requires DistinctKeys(table) && n <= |table|
    ensures forall a, b, i, j ::
              && 0 <= a < b < |DefaultNotices(table, user, n)|
              && 0 <= i < |table| && 0 <= j < |table|
              && DefaultNotices(table, user, n)[a] == TimeoutDefaulted(table[i].0, table[i].1)
              && DefaultNotices(table, user, n)[b] == TimeoutDefaulted(table[j].0, table[j].1)
              ==> i < j
  {
    if n > 0 {
      DefaultNoticesInTableOrder(table, user, n - 1);
      DefaultNoticesMembers(table, user, n - 1);
      var prev := DefaultNotices(table, user, n - 1);
      var ns := DefaultNotices(table, user, n);
      forall a, b, i, j |
        && 0 <= a < b < |ns|
        && 0 <= i < |table| && 0 <= j < |table|
        && ns[a] == TimeoutDefaulted(table[i].0, table[i].1)
        && ns[b] == TimeoutDefaulted(table[j].0, table[j].1)
        ensures i < j
      {
        if b >= |prev| {
          assert ns[a] in prev;
          var i' :| 0 <= i' < n - 1 && Falsy(Get(user, table[i'].0))
                    && ns[a] == TimeoutDefaulted(table[i'].0, table[i'].1);
          assert i == i';
          assert table[j].0 == table[n - 1].0;
        } else {
          assert prev[a] == ns[a] && prev[b] == ns[b];
        }
      }
    }
  }

  /** No notice is logged when every table key already holds a truthy value. */
  lemma {:induction false} NoNoticesWhenAllTruthy(table: Table, user: map<string, Value>, n: nat)
    requires n <= |table|
    requires forall i :: 0 <= i < n ==> !Falsy(Get(user, table[i].0))
    ensures DefaultNotices(table, user, n) == []
  {
    if n > 0 {
      NoNoticesWhenAllTruthy(table, user, n - 1);
    }
  }

  /** Every key of the table, looked up in the table as a mapping, holds a
      truthy value, provided no default is zero. */
  lemma TableValuesTruthy(table: Table)
    requires DistinctKeys(table)
    requires forall i :: 0 <= i < |table| ==> table[i].1 != 0
    ensures forall i :: 0 <= i < |table| ==> !Falsy(Get(AsMapping(table), table[i].0))
  {
    AsMappingSpec(table);
  }

  /** With no user mapping the loop starts from the table itself: it changes
      nothing and reports nothing. */
  lemma DefaultsWhenAbsent(table: Table)
    requires DistinctKeys(table)
    requires forall i :: 0 <= i < |table| ==> table[i].1 != 0
    ensures FillDefaults(table, AsMapping(table), |table|) == AsMapping(table)
    ensures DefaultNotices(table, AsMapping(table), |table|) == []
  {
    var t := AsMapping(table);
    var r := FillDefaults(table, t, |table|);
    TableValuesTruthy(table);
    AsMappingSpec(table);
    FillDefaultsSpec(table, t, |table|);
    assert r.Keys == t.Keys;
    forall key | key in r ensures r[key] == t[key] {
      var i :| 0 <= i < |table| && key == table[i].0;
    }
    NoNoticesWhenAllTruthy(table, t, |table|);
  }

  /** Every table key ends up holding a truthy value, provided no default is
      zero. */
  lemma FilledKeysTruthy(table: Table, user: map<string, Value>, i: nat)
    requires DistinctKeys(table) && i < |table| && table[i].1 != 0
    ensures table[i].0 in FillDefaults(table, user, |table|)
    ensures !Falsy(FillDefaults(table, user, |table|)[table[i].0])
  {
    FillDefaultsSpec(table, user, |table|);
    assert table[i].0 in KeysBefore(table, |table|);
  }

  /** Defaulting twice is defaulting once, and the second pass reports nothing. */
  lemma DefaultingIdempotent(table: Table, user: map<string, Value>)
    requires DistinctKeys(table)
    requires forall i :: 0 <= i < |table| ==> table[i].1 != 0
    ensures FillDefaults(table, FillDefaults(table, user, |table|), |table|)
            == FillDefaults(table, user, |table|)
    ensures DefaultNotices(table, FillDefaults(table, user, |table|), |table|) == []
  {
    var r := FillDefaults(table, user, |table|);
    var rr := FillDefaults(table, r, |table|);
    FillDefaultsSpec(table, user, |table|);
    FillDefaultsSpec(table, r, |table|);
    forall i | 0 <= i < |table| ensures !Falsy(Get(r, table[i].0)) {
      FilledKeysTruthy(table, user, i);
    }
    forall key | key in rr ensures rr[key] == r[key] {
      if key in KeysBefore(table, |table|) {
        var i :| 0 <= i < |table| && key == table[i].0;
      }
    }
    NoNoticesWhenAllTruthy(table, r, |table|);
  }

  /** One round of the loop on the running mapping: the check of the running
      value agrees with the check of the user's value, because no earlier
      round wrote this key. */
  lemma FillStep(table: Table, user: map<string, Value>, k: nat)
    requires DistinctKeys(table) && k < |table|
    ensures var m := FillDefaults(table, user, k);
            var key := table[k].0;
            && Get(m, key) == Get(user, key)
            && FillDefaults(table, user, k + 1) == (if Falsy(Get(m, key)) then m[key := Int(table[k].1)] else m)
            && DefaultNotices(table, user, k + 1)
               == DefaultNotices(table, user, k)
                  + if Falsy(Get(m, key)) then [TimeoutDefaulted(key, table[k].1)] else []
  {
    FillDefaultsSpec(table, user, k);
    assert table[k].0 !in KeysBefore(table, k);
  }

  /** The loop itself (config.py lines 56-61): fills the mapping in place and
      prints one notice per filled key. */
  method FillTimeouts(table: Table, user: map<string, Value>) returns (timeouts: map<string, Value>, notices: seq<Notice>)
    requires DistinctKeys(table)
    ensures timeouts == FillDefaults(table, user, |table|)
    ensures notices == DefaultNotices(table, user, |table|)
  {
    timeouts, notices := user, [];
    var k := 0;
    while k < |table|
      invariant 0 <= k <= |table|
      invariant timeouts == FillDefaults(table, user, k)
      invariant notices == DefaultNotices(table, user, k)
    {
      var key, seconds := table[k].0, table[k].1;
      FillStep(table, user, k);
      if Falsy(Get(timeouts, key)) {
        timeouts := timeouts[key := Int(seconds)];
        notices := notices + [TimeoutDefaulted(key, seconds)];
      }
      k := k + 1;
    }
  }
}
