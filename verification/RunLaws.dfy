/** Laws over runs of commands and timers: what a later request answers because of an earlier one. */
module RunLaws {
  import opened Common
  import opened Response
  import opened Keyspace
  import opened ZOrder
  import opened ZListing
  import opened Commands
  import opened CommandLaws

  // ---------- what leaves a key alone ----------

  /** The commands on key k that may change it: set, del, zadd, zrem and pexpire. */
  ghost predicate Writes(cmd: Command, k: Bytes) {
    && |cmd| >= 2 && cmd[1] == k
    && cmd[0] in {[115, 101, 116], [100, 101, 108], [122, 97, 100, 100], [122, 114, 101, 109], [112, 101, 120, 112, 105, 114, 101]}
  }

  /** Those that may bring it into being: set and zadd. */
  ghost predicate Creates(cmd: Command, k: Bytes) {
    |cmd| >= 2 && cmd[1] == k && cmd[0] in {[115, 101, 116], [122, 97, 100, 100]}
  }

  /** An action that cannot touch the item of key k: a timer run must come before its deadline. */
  ghost predicate Spares(a: Action, k: Bytes, it: Item) {
    match a
    case Request(cmd, _) => !Writes(cmd, k)
    case Timers(now) => it.deadline.None? || now < it.deadline.value
  }

  lemma ItemStays(s: Store, a: Action, s': Store, v: Value, env: Env, k: Bytes)
    requires StepOk(s, a, s', v, env) && k in s && Spares(a, k, s[k])
    ensures k in s' && s'[k] == s[k]
  {
    Names();
    if a.Timers? {
      var gone :| Reaped(s, a.now, s', gone);
    }
  }

  lemma AbsentStays(s: Store, a: Action, s': Store, v: Value, env: Env, k: Bytes)
    requires StepOk(s, a, s', v, env) && k !in s && (a.Request? ==> !Creates(a.cmd, k))
    ensures k !in s'
  {
    Names();
    if a.Timers? {
      var gone :| Reaped(s, a.now, s', gone);
    }
  }

  /** A run, and two places in it. */
  datatype Run = Run(actions: seq<Action>, stores: seq<Store>, replies: seq<Value>, env: Env)

  ghost predicate Ran(r: Run, i: nat, j: nat) {
    History(r.actions, r.stores, r.replies, r.env) && i <= j <= |r.actions|
  }

  /** Nothing from place i up to place j touches key k. */
  ghost predicate Untouched(r: Run, i: nat, j: nat, k: Bytes)
    requires Ran(r, i, j)
  {
    k in r.stores[i] && forall m {:trigger r.actions[m]} :: i <= m < j ==> Spares(r.actions[m], k, r.stores[i][k])
  }

  lemma {:induction false} ItemKept(r: Run, i: nat, j: nat, k: Bytes)
    requires Ran(r, i, j) && Untouched(r, i, j, k)
    ensures k in r.stores[j] && r.stores[j][k] == r.stores[i][k]
    decreases j
  {
    if i < j {
      ItemKept(r, i, j - 1, k);
      ItemStays(r.stores[j - 1], r.actions[j - 1], r.stores[j], r.replies[j - 1], r.env, k);
    }
  }

  ghost predicate NotCreated(r: Run, i: nat, j: nat, k: Bytes)
    requires Ran(r, i, j)
  {
    forall m {:trigger r.actions[m]} :: i <= m < j ==> r.actions[m].Request? ==> !Creates(r.actions[m].cmd, k)
  }

  lemma {:induction false} AbsentKept(r: Run, i: nat, j: nat, k: Bytes)
    requires Ran(r, i, j) && NotCreated(r, i, j, k) && k !in r.stores[i]
    ensures k !in r.stores[j]
    decreases j
  {
    if i < j {
      AbsentKept(r, i, j - 1, k);
      AbsentStays(r.stores[j - 1], r.actions[j - 1], r.stores[j], r.replies[j - 1], r.env, k);
    }
  }

  // ---------- two requests ----------

  /** set k x, then get k with nothing touching k in between: the value set. */
  lemma SetThenGet(r: Run, i: nat, j: nat, k: Bytes, x: Bytes, a: Millis, b: Millis)
    requires Ran(r, i + 1, j) && j < |r.actions|
    requires r.actions[i] == Request([[115, 101, 116], k, x], a) && r.actions[j] == Request([[103, 101, 116], k], b)
    requires k in r.stores[i + 1] ==> Untouched(r, i + 1, j, k)
    ensures r.replies[j] == Str(x)
  {
    SetLaw(r.stores[i], k, x, a, r.stores[i + 1], r.replies[i], r.env);
    ItemKept(r, i + 1, j, k);
    GetLaw(r.stores[j], k, b, r.stores[j + 1], r.replies[j], r.env);
  }

  /** set k x, then del k: answers 1. */
  lemma SetThenDel(r: Run, i: nat, j: nat, k: Bytes, x: Bytes, a: Millis, b: Millis)
    requires Ran(r, i + 1, j) && j < |r.actions|
    requires r.actions[i] == Request([[115, 101, 116], k, x], a) && r.actions[j] == Request([[100, 101, 108], k], b)
    requires k in r.stores[i + 1] ==> Untouched(r, i + 1, j, k)
    ensures r.replies[j] == Int(1)
  {
    SetLaw(r.stores[i], k, x, a, r.stores[i + 1], r.replies[i], r.env);
    ItemKept(r, i + 1, j, k);
    DelLaw(r.stores[j], k, b, r.stores[j + 1], r.replies[j], r.env);
  }

  /** del k, then del k or get k with no set or zadd of k in between, whatever else: 0 and nil. */
  lemma AfterDel(r: Run, i: nat, j: nat, k: Bytes, a: Millis, b: Millis)
    requires Ran(r, i + 1, j) && j < |r.actions| && NotCreated(r, i + 1, j, k) && r.actions[i] == Request([[100, 101, 108], k], a)
    ensures r.actions[j] == Request([[100, 101, 108], k], b) ==> r.replies[j] == Int(0)
    ensures r.actions[j] == Request([[103, 101, 116], k], b) ==> r.replies[j] == Nil
  {
    DelLaw(r.stores[i], k, a, r.stores[i + 1], r.replies[i], r.env);
    AbsentKept(r, i + 1, j, k);
    if r.actions[j] == Request([[100, 101, 108], k], b) {
      DelLaw(r.stores[j], k, b, r.stores[j + 1], r.replies[j], r.env);
    } else if r.actions[j] == Request([[103, 101, 116], k], b) {
      GetLaw(r.stores[j], k, b, r.stores[j + 1], r.replies[j], r.env);
    }
  }

  /** pexpire k t at time a on an existing key, then pttl k at time b >= a with nothing touching k in
      between, so that no timer run has come at a + t or later: the time left, and 0 once it is over. */
  lemma PExpireThenPTtl(r: Run, i: nat, j: nat, k: Bytes, arg: Bytes, t: Int64, a: Millis, b: Millis)
    requires Ran(r, i + 1, j) && j < |r.actions| && k in r.stores[i] && r.env.parseInt(arg) == Some(t) && t >= 0 && a <= b
    requires r.actions[i] == Request([[112, 101, 120, 112, 105, 114, 101], k, arg], a) && r.actions[j] == Request([[112, 116, 116, 108], k], b)
    requires k in r.stores[i + 1] ==> Untouched(r, i + 1, j, k)
    ensures r.replies[i] == Int(1) && r.replies[j] == Int(if b < a + t then t - (b - a) else 0)
  {
    PExpireLaw(r.stores[i], k, arg, a, r.stores[i + 1], r.replies[i], r.env);
    assert k in r.stores[i + 1] && r.stores[i + 1][k].deadline == Some(a + t);
    ItemKept(r, i + 1, j, k);
    PTtlLaw(r.stores[j], k, b, r.stores[j + 1], r.replies[j], r.env);
  }

  lemma AddedIsThere(s: Store, k: Bytes, arg: Bytes, x: Double, n: Bytes, now: Millis, s': Store, v: Value, env: Env)
    requires StepOk(s, Request([[122, 97, 100, 100], k, arg, n], now), s', v, env) && env.parseDouble(arg) == Some(x)
    requires k in s ==> s[k].kind == TypeZSet
    ensures k in s' && s'[k].kind == TypeZSet && n in s'[k].members && SameNumber(x, s'[k].members[n])
  {
    ZAddLaw(s, k, arg, n, now, s', v, env);
  }

  /** zadd k x n that is not refused, then zscore k n: the score, or the other zero. */
  lemma ZAddThenZScore(r: Run, i: nat, j: nat, k: Bytes, arg: Bytes, x: Double, n: Bytes, a: Millis, b: Millis) returns (y: Double)
    requires Ran(r, i + 1, j) && j < |r.actions| && r.env.parseDouble(arg) == Some(x)
    requires k in r.stores[i] ==> r.stores[i][k].kind == TypeZSet
    requires r.actions[i] == Request([[122, 97, 100, 100], k, arg, n], a) && r.actions[j] == Request([[122, 115, 99, 111, 114, 101], k, n], b)
    requires k in r.stores[i + 1] ==> Untouched(r, i + 1, j, k)
    ensures r.replies[j] == Dbl(y) && SameNumber(x, y)
  {
    AddedIsThere(r.stores[i], k, arg, x, n, a, r.stores[i + 1], r.replies[i], r.env);
    y := r.stores[i + 1][k].members[n];
    ItemKept(r, i + 1, j, k);
    ZScoreLaw(r.stores[j], k, n, b, r.stores[j + 1], r.replies[j], r.env);
  }

  /** zadd k x n that is not refused, then zrem k n: answers 1. */
  lemma ZAddThenZRem(r: Run, i: nat, j: nat, k: Bytes, arg: Bytes, x: Double, n: Bytes, a: Millis, b: Millis)
    requires Ran(r, i + 1, j) && j < |r.actions| && r.env.parseDouble(arg) == Some(x)
    requires k in r.stores[i] ==> r.stores[i][k].kind == TypeZSet
    requires r.actions[i] == Request([[122, 97, 100, 100], k, arg, n], a) && r.actions[j] == Request([[122, 114, 101, 109], k, n], b)
    requires k in r.stores[i + 1] ==> Untouched(r, i + 1, j, k)
    ensures r.replies[j] == Int(1)
  {
    AddedIsThere(r.stores[i], k, arg, x, n, a, r.stores[i + 1], r.replies[i], r.env);
    ItemKept(r, i + 1, j, k);
    ZRemLaw(r.stores[j], k, n, b, r.stores[j + 1], r.replies[j], r.env);
  }

  // ---------- scores are numbers ----------

  ghost predicate AllNumbers(v: Members) {
    forall n {:trigger v[n]} :: n in v ==> !Ieee.IsNaN(v[n])
  }

  ghost predicate Numeric(s: Store) {
    forall k {:trigger s[k]} :: k in s ==> AllNumbers(s[k].members)
  }

  /** str2dbl rejects NaN. */
  ghost predicate RejectsNaN(env: Env) {
    forall b {:trigger env.parseDouble(b)} :: env.parseDouble(b).Some? ==> !Ieee.IsNaN(env.parseDouble(b).value)
  }

  lemma NumericStays(s: Store, a: Action, s': Store, v: Value, env: Env)
    requires StepOk(s, a, s', v, env) && Numeric(s) && RejectsNaN(env)
    ensures Numeric(s')
  {
    match a
    case Timers(now) =>
      var gone :| Reaped(s, now, s', gone);
      assert forall k :: k in s' ==> k in s && s'[k] == s[k];
    case Request(cmd, now) =>
      var op := Dispatch(cmd, env.parseInt, env.parseDouble);
      if op.ZAdd? && op.score.Some? {
        assert op.score == env.parseDouble(cmd[2]);
      }
  }

  /** No run brings a score that is not a number into a sorted set. */
  lemma {:induction false} ScoresAreNumbers(r: Run, i: nat)
    requires Ran(r, i, i) && RejectsNaN(r.env)
    ensures Numeric(r.stores[i])
    decreases i
  {
    if i > 0 {
      ScoresAreNumbers(r, i - 1);
      NumericStays(r.stores[i - 1], r.actions[i - 1], r.stores[i], r.replies[i - 1], r.env);
    }
  }

  /** So what a range query answers is sorted by the numbers that the scores denote, then by name. */
  lemma ListingByNumber(r: Run, i: nat, k: Bytes, l: seq<Tuple>, p: nat, q: nat)
    requires Ran(r, i, i) && RejectsNaN(r.env) && k in r.stores[i]
    requires SortedListing(l, r.stores[i][k].members, ZLess) && p < q < |l|
    ensures !Ieee.IsNaN(l[p].score) && !Ieee.IsNaN(l[q].score)
    ensures var x, y := Ieee.Value(l[p].score), Ieee.Value(l[q].score);
      Ieee.Below(x, y) || (x == y && LexLess(l[p].name, l[q].name))
  {
    ScoresAreNumbers(r, i);
    var v := r.stores[i][k].members;
    assert v[l[p].name] == l[p].score && v[l[q].name] == l[q].score;
    ZLessIsByNumber(l[p], l[q]);
  }
}
