/** The request processor (src/spoa/spoa_agent.cpp): decision, counters and response. */
module Agent {
  import opened Bytes
  import opened ProtocolIo
  import opened TypedData
  import opened Grammar
  import opened FrameParsing
  import opened FrameEncoding
  import opened DropCategoriesModel

  /** What a database answers: an error, no entry, or an entry whose category members may be corrupt. */
  datatype Lookup = Failed | NotFound | Found(members: seq<Option<string>>)
  type Db = Typed -> Lookup

  const STATUS_NOT_IMPLEMENTED: u32 := 14

  // ---------- the decision ----------

  predicate Supported(v: Typed) {
    v.IPv4? || v.IPv6? || v.Str?
  }

  /** The first configured category in database order. */
  function FirstMatch(names: set<string>, members: seq<Option<string>>): Option<string> {
    if members == [] then None
    else if members[0].Some? && members[0].value in names then members[0]
    else FirstMatch(names, members[1..])
  }

  /** The category an argument is blocked for, if any. */
  function Blocking(names: set<string>, db: Option<Db>, v: Typed): Option<string> {
    if !Supported(v) || db.None? then None
    else match db.value(v)
      case Found(members) => FirstMatch(names, members)
      case Failed => None
      case NotFound => None
  }

  /** There is a match exactly if some readable member is configured, and it is the first such. */
  lemma {:induction false} FirstMatchIsFirst(names: set<string>, members: seq<Option<string>>)
    ensures FirstMatch(names, members).Some? <==>
      exists k :: 0 <= k < |members| && members[k].Some? && members[k].value in names
    ensures FirstMatch(names, members).Some? ==>
      exists k :: 0 <= k < |members| && members[k] == FirstMatch(names, members) && members[k].value in names
        && forall j | 0 <= j < k :: members[j].None? || members[j].value !in names
  {
    if members != [] && !(members[0].Some? && members[0].value in names) {
      var rest := members[1..];
      FirstMatchIsFirst(names, rest);
      assert forall k | 0 <= k < |rest| :: rest[k] == members[k + 1];
      assert forall k | 1 <= k < |members| :: members[k] == rest[k - 1];
    }
  }

  function Bump(counters: map<string, nat>, hit: Option<string>): map<string, nat> {
    if hit.Some? && hit.value in counters then counters[hit.value := counters[hit.value] + 1] else counters
  }

  /** The counters after a list of arguments. */
  function CountersAfter(counters: map<string, nat>, db: Option<Db>, args: seq<Arg>): map<string, nat> {
    if args == [] then counters
    else
      var rest := args[..|args| - 1];
      Bump(CountersAfter(counters, db, rest), Blocking(counters.Keys, db, args[|args| - 1].value))
  }

  predicate SomeBlocked(names: set<string>, db: Option<Db>, args: seq<Arg>) {
    exists k :: 0 <= k < |args| && Blocking(names, db, args[k].value).Some?
  }

  predicate SomeUnsupported(args: seq<Arg>) {
    exists k :: 0 <= k < |args| && !Supported(args[k].value)
  }

  function One(counts: bool): nat {
    if counts then 1 else 0
  }

  /** How many arguments are blocked, and how many for one category. */
  function Blocked(names: set<string>, db: Option<Db>, args: seq<Arg>): nat {
    if args == [] then 0
    else
      var last := args[|args| - 1].value;
      Blocked(names, db, args[..|args| - 1]) + One(Blocking(names, db, last).Some?)
  }

  function BlockedFor(names: set<string>, db: Option<Db>, args: seq<Arg>, name: string): nat {
    if args == [] then 0
    else
      var last := args[|args| - 1].value;
      BlockedFor(names, db, args[..|args| - 1], name) + One(Blocking(names, db, last) == Some(name))
  }

  predicate LooksUp(db: Option<Db>, v: Typed) {
    db.Some? && Supported(v)
  }

  predicate Fails(db: Option<Db>, v: Typed) {
    db.Some? && Supported(v) && db.value(v).Failed?
  }

  function Looked(db: Option<Db>, args: seq<Arg>): nat {
    if args == [] then 0 else Looked(db, args[..|args| - 1]) + One(LooksUp(db, args[|args| - 1].value))
  }

  function Errors(db: Option<Db>, args: seq<Arg>): nat {
    if args == [] then 0 else Errors(db, args[..|args| - 1]) + One(Fails(db, args[|args| - 1].value))
  }

  lemma BlockingIsConfigured(names: set<string>, db: Option<Db>, v: Typed)
    ensures Blocking(names, db, v).Some? ==> Blocking(names, db, v).value in names
  {
    if Supported(v) && db.Some? && db.value(v).Found? {
      FirstMatchIsFirst(names, db.value(v).members);
    }
  }

  lemma BumpConserves(counters: map<string, nat>, hit: Option<string>)
    requires hit.Some? ==> hit.value in counters
    ensures Total(Bump(counters, hit)) == Total(counters) + One(hit.Some?)
  {
    if hit.Some? {
      TotalBumped(counters, hit.value);
      assert Bump(counters, hit) == counters[hit.value := counters[hit.value] + 1];
    }
  }

  lemma BumpKeepsKeys(counters: map<string, nat>, hit: Option<string>)
    ensures Bump(counters, hit).Keys == counters.Keys
  {
  }

  /** Conservation: the counters grow in total by the number of blocked arguments. */
  lemma {:induction false} CountersConserve(counters: map<string, nat>, db: Option<Db>, args: seq<Arg>)
    ensures CountersAfter(counters, db, args).Keys == counters.Keys
    ensures Total(CountersAfter(counters, db, args)) == Total(counters) + Blocked(counters.Keys, db, args)
  {
    if args != [] {
      var rest, last := args[..|args| - 1], args[|args| - 1].value;
      CountersConserve(counters, db, rest);
      BlockingIsConfigured(counters.Keys, db, last);
      BumpConserves(CountersAfter(counters, db, rest), Blocking(counters.Keys, db, last));
      BumpKeepsKeys(CountersAfter(counters, db, rest), Blocking(counters.Keys, db, last));
    }
  }

  /** Each counter grows by the number of arguments whose first match it is. */
  lemma {:induction false} CounterOf(counters: map<string, nat>, db: Option<Db>, args: seq<Arg>, name: string)
    requires name in counters
    ensures name in CountersAfter(counters, db, args)
    ensures CountersAfter(counters, db, args)[name] == counters[name] + BlockedFor(counters.Keys, db, args, name)
  {
    if args != [] {
      var rest, last := args[..|args| - 1], args[|args| - 1].value;
      CounterOf(counters, db, rest, name);
      CountersConserve(counters, db, rest);
      BlockingIsConfigured(counters.Keys, db, last);
      BumpOne(CountersAfter(counters, db, rest), Blocking(counters.Keys, db, last), name);
    }
  }

  lemma BumpOne(counters: map<string, nat>, hit: Option<string>, name: string)
    requires name in counters && (hit.Some? ==> hit.value in counters)
    ensures name in Bump(counters, hit) && Bump(counters, hit)[name] == counters[name] + One(hit == Some(name))
  {
  }

  lemma {:induction false} BlockedIffSome(names: set<string>, db: Option<Db>, args: seq<Arg>)
    ensures Blocked(names, db, args) > 0 <==> SomeBlocked(names, db, args)
  {
    if args != [] {
      BlockedIffSome(names, db, args[..|args| - 1]);
      if SomeBlocked(names, db, args) {
        var k :| 0 <= k < |args| && Blocking(names, db, args[k].value).Some?;
        assert k < |args| - 1 ==> args[..|args| - 1][k] == args[k];
      }
    }
  }

  // ---------- whole runs ----------

  /** What the agent works on for one NOTIFY frame: the snapshot in force and the arguments. */
  datatype Request = Request(db: Option<Db>, args: seq<Arg>)

  function CountersAfterRun(counters: map<string, nat>, requests: seq<Request>): map<string, nat> {
    if requests == [] then counters
    else
      var last := requests[|requests| - 1];
      CountersAfter(CountersAfterRun(counters, requests[..|requests| - 1]), last.db, last.args)
  }

  function BlockedInRun(names: set<string>, requests: seq<Request>): nat {
    if requests == [] then 0
    else
      var last := requests[|requests| - 1];
      BlockedInRun(names, requests[..|requests| - 1]) + Blocked(names, last.db, last.args)
  }

  /** Over any run of NOTIFY frames and database versions the counters grow by the blocked arguments. */
  lemma {:induction false} RunConserves(counters: map<string, nat>, requests: seq<Request>)
    ensures CountersAfterRun(counters, requests).Keys == counters.Keys
    ensures Total(CountersAfterRun(counters, requests)) == Total(counters) + BlockedInRun(counters.Keys, requests)
  {
    if requests != [] {
      var rest, last := requests[..|requests| - 1], requests[|requests| - 1];
      RunConserves(counters, rest);
      CountersConserve(CountersAfterRun(counters, rest), last.db, last.args);
    }
  }

  // ---------- the code ----------

  /** The arguments of all messages, in order. */
  function AllArgs(ms: seq<Message>): seq<Arg> {
    if ms == [] then [] else AllArgs(ms[..|ms| - 1]) + ms[|ms| - 1].args
  }

  lemma {:induction false} ArgIsIn(ms: seq<Message>, m: nat, a: nat)
    requires m < |ms| && a < |ms[m].args|
    ensures ms[m].args[a] in AllArgs(ms)
  {
    if m < |ms| - 1 {
      ArgIsIn(ms[..|ms| - 1], m, a);
    }
  }

  lemma {:induction false} ArgIsFrom(ms: seq<Message>, x: Arg) returns (m: nat, a: nat)
    requires x in AllArgs(ms)
    ensures m < |ms| && a < |ms[m].args| && ms[m].args[a] == x
  {
    var last := |ms| - 1;
    if x in ms[last].args {
      m := last;
      a :| a < |ms[last].args| && ms[last].args[a] == x;
    } else {
      m, a := ArgIsFrom(ms[..last], x);
    }
  }

  // ---------- the decision, argument by argument ----------

  /** Argument `a` of message `m` is neither an address nor a string. */
  predicate UnsupportedAt(ms: seq<Message>, m: nat, a: nat) {
    m < |ms| && a < |ms[m].args| &&
    var v := ms[m].args[a].value;
    !v.IPv4? && !v.IPv6? && !v.Str?
  }

  /** Argument `a` of message `m` is an address or a string that is found, with a configured category as member `k`. */
  predicate HitAt(names: set<string>, db: Option<Db>, ms: seq<Message>, m: nat, a: nat, k: nat) {
    m < |ms| && a < |ms[m].args| && db.Some? &&
    var v := ms[m].args[a].value;
    (v.IPv4? || v.IPv6? || v.Str?) && HitIn(names, db.value(v), k)
  }

  predicate HitIn(names: set<string>, found: Lookup, k: nat) {
    found.Found? && k < |found.members| && found.members[k].Some? && found.members[k].value in names
  }

  lemma BlockingIff(names: set<string>, db: Option<Db>, v: Typed)
    ensures Blocking(names, db, v).Some? <==>
      db.Some? && (v.IPv4? || v.IPv6? || v.Str?) && exists k: nat :: HitIn(names, db.value(v), k)
  {
    if Supported(v) && db.Some? && db.value(v).Found? {
      var members := db.value(v).members;
      FirstMatchIsFirst(names, members);
      if k: nat :| HitIn(names, db.value(v), k) {
        assert members[k].Some? && members[k].value in names;
      }
      if k :| 0 <= k < |members| && members[k].Some? && members[k].value in names {
        assert HitIn(names, db.value(v), k);
      }
    }
  }

  lemma BlockedAt(names: set<string>, db: Option<Db>, ms: seq<Message>, m: nat, a: nat)
    requires m < |ms| && a < |ms[m].args|
    ensures Blocking(names, db, ms[m].args[a].value).Some? <==> exists k: nat :: HitAt(names, db, ms, m, a, k)
  {
    var v := ms[m].args[a].value;
    BlockingIff(names, db, v);
    if db.Some? && (v.IPv4? || v.IPv6? || v.Str?) {
      if k: nat :| HitIn(names, db.value(v), k) {
        assert HitAt(names, db, ms, m, a, k);
      }
    }
  }

  /** Some argument is blocked exactly if some member of the answer for some argument of some message is configured. */
  lemma SomeBlockedIff(names: set<string>, db: Option<Db>, ms: seq<Message>)
    ensures SomeBlocked(names, db, AllArgs(ms)) <==> exists m: nat, a: nat, k: nat :: HitAt(names, db, ms, m, a, k)
  {
    var args := AllArgs(ms);
    if SomeBlocked(names, db, args) {
      var i :| 0 <= i < |args| && Blocking(names, db, args[i].value).Some?;
      var m, a := ArgIsFrom(ms, args[i]);
      BlockedAt(names, db, ms, m, a);
    }
    if m: nat, a: nat, k: nat :| HitAt(names, db, ms, m, a, k) {
      BlockedAt(names, db, ms, m, a);
      ArgIsIn(ms, m, a);
    }
  }

  /** Member `k` is the first configured one, and it is `name`. */
  predicate FirstHitIs(names: set<string>, found: Lookup, k: nat, name: string) {
    HitIn(names, found, k) && found.members[k] == Some(name) && forall j: nat | j < k :: !HitIn(names, found, j)
  }

  /** An argument counts for `name`: it is looked up, and the first configured member of the answer is `name`. */
  ghost predicate CountsFor(names: set<string>, db: Option<Db>, v: Typed, name: string) {
    db.Some? && (v.IPv4? || v.IPv6? || v.Str?) && exists k: nat :: FirstHitIs(names, db.value(v), k, name)
  }

  lemma FirstHitIff(names: set<string>, found: Lookup, name: string)
    requires found.Found?
    ensures FirstMatch(names, found.members) == Some(name) <==> exists k: nat :: FirstHitIs(names, found, k, name)
  {
    var hit := FirstMatch(names, found.members);
    FirstMatchIsFirst(names, found.members);
    if hit.Some? {
      var k: nat :| && k < |found.members| && found.members[k] == hit && hit.value in names
                    && forall j | 0 <= j < k :: found.members[j].None? || found.members[j].value !in names;
      assert FirstHitIs(names, found, k, hit.value);
    }
    if k: nat :| FirstHitIs(names, found, k, name) {
      assert found.members[k].Some? && found.members[k].value in names;
    }
  }

  lemma CountsForIff(names: set<string>, db: Option<Db>, v: Typed, name: string)
    ensures Blocking(names, db, v) == Some(name) <==> CountsFor(names, db, v, name)
  {
    if Supported(v) && db.Some? && db.value(v).Found? {
      FirstHitIff(names, db.value(v), name);
    }
  }

  lemma OneMoreIndex(n: nat, counts: nat -> bool)
    ensures |set k: nat | k < n + 1 && counts(k)| == |set k: nat | k < n && counts(k)| + One(counts(n))
  {
    var fewer, more := set k: nat | k < n && counts(k), set k: nat | k < n + 1 && counts(k);
    assert more == if counts(n) then fewer + {n} else fewer;
  }

  /** A counter grows by the number of arguments that count for its category. */
  lemma {:induction false} BlockedForIsCount(names: set<string>, db: Option<Db>, args: seq<Arg>, name: string)
    ensures BlockedFor(names, db, args, name) == |set k: nat | k < |args| && CountsFor(names, db, args[k].value, name)|
  {
    var counts := (k: nat) => k < |args| && CountsFor(names, db, args[k].value, name);
    assert (set k: nat | k < |args| && counts(k)) == set k: nat | k < |args| && CountsFor(names, db, args[k].value, name);
    if args != [] {
      var n := |args| - 1;
      var rest := args[..n];
      BlockedForIsCount(names, db, rest, name);
      assert (set k: nat | k < n && counts(k)) == set k: nat | k < |rest| && CountsFor(names, db, rest[k].value, name);
      OneMoreIndex(n, counts);
      CountsForIff(names, db, args[n].value, name);
    }
  }

  /** An address or a string is looked up if there is a database. */
  predicate Asked(db: Option<Db>, v: Typed) {
    db.Some? && (v.IPv4? || v.IPv6? || v.Str?)
  }

  /** The lookups counted are those of the addresses and strings. */
  lemma {:induction false} LookedIsCount(db: Option<Db>, args: seq<Arg>)
    ensures Looked(db, args) == |set k: nat | k < |args| && Asked(db, args[k].value)|
  {
    var counts := (k: nat) => k < |args| && Asked(db, args[k].value);
    assert (set k: nat | k < |args| && counts(k)) == set k: nat | k < |args| && Asked(db, args[k].value);
    if args != [] {
      var n := |args| - 1;
      var rest := args[..n];
      LookedIsCount(db, rest);
      assert (set k: nat | k < n && counts(k)) == set k: nat | k < |rest| && Asked(db, rest[k].value);
      OneMoreIndex(n, counts);
    }
  }

  /** The errors counted are the failed ones among them. */
  lemma {:induction false} ErrorsIsCount(db: Option<Db>, args: seq<Arg>)
    ensures Errors(db, args) == |set k: nat | k < |args| && Asked(db, args[k].value) && db.value(args[k].value).Failed?|
  {
    var counts := (k: nat) => k < |args| && Asked(db, args[k].value) && db.value(args[k].value).Failed?;
    assert (set k: nat | k < |args| && counts(k))
        == set k: nat | k < |args| && Asked(db, args[k].value) && db.value(args[k].value).Failed?;
    if args != [] {
      var n := |args| - 1;
      var rest := args[..n];
      ErrorsIsCount(db, rest);
      assert (set k: nat | k < n && counts(k))
          == set k: nat | k < |rest| && Asked(db, rest[k].value) && db.value(rest[k].value).Failed?;
      OneMoreIndex(n, counts);
    }
  }

  lemma SomeUnsupportedIff(ms: seq<Message>)
    ensures SomeUnsupported(AllArgs(ms)) <==> exists m: nat, a: nat :: UnsupportedAt(ms, m, a)
  {
    var args := AllArgs(ms);
    if SomeUnsupported(args) {
      var i :| 0 <= i < |args| && !Supported(args[i].value);
      var m, a := ArgIsFrom(ms, args[i]);
      assert UnsupportedAt(ms, m, a);
    }
    if m: nat, a: nat :| UnsupportedAt(ms, m, a) {
      ArgIsIn(ms, m, a);
    }
  }

  datatype Reply = Reply(bytes: seq<byte>, stop: bool)

  /** The counters of the agent at one moment. */
  datatype Tally = Tally(counters: map<string, nat>, lookups: nat, errors: nat)

  /** From `t0` to `t` exactly the arguments `args` were evaluated, with the given outcome. */
  ghost predicate After(t0: Tally, t: Tally, db: Option<Db>, args: seq<Arg>, notImplemented: bool, ipBad: bool) {
    && t.counters.Keys == t0.counters.Keys
    && t.counters == CountersAfter(t0.counters, db, args)
    && t.lookups == t0.lookups + Looked(db, args)
    && t.errors == t0.errors + Errors(db, args)
    && notImplemented == SomeUnsupported(args)
    && ipBad == SomeBlocked(t0.counters.Keys, db, args)
  }

  class SpoaAgent {
    const drops: DropCategories
    var lookups: nat
    var lookupErrors: nat

    constructor (categories: DropCategories)
      ensures drops == categories && lookups == 0 && lookupErrors == 0
    {
      drops := categories;
      lookups := 0;
      lookupErrors := 0;
    }

    /**
     `evaluate_lookup`. With logging the visit goes on after the first match, without it stops
     there; neither the decision nor the counters depend on it.
     */
    method EvaluateLookup(result: Lookup, logging: bool, before: bool) returns (ipBad: bool)
      requires "" !in drops.categories
      modifies this, drops
      ensures lookups == old(lookups) + 1
      ensures lookupErrors == old(lookupErrors) + One(result.Failed?)
      ensures
        var hit := if result.Found? then FirstMatch(old(drops.categories.Keys), result.members) else None;
        ipBad == (before || hit.Some?) && drops.categories == Bump(old(drops.categories), hit)
    {
      lookups := lookups + 1;
      ipBad := before;
      if result.Failed? {
        lookupErrors := lookupErrors + 1;
        return;
      }
      if result.NotFound? {
        return;
      }
      ghost var counters := drops.categories;
      ghost var names := counters.Keys;
      ghost var hit := FirstMatch(names, result.members);
      var matched := "";
      var k := 0;
      while k < |result.members|
        invariant k <= |result.members| && "" !in names
        invariant lookups == old(lookups) + 1 && lookupErrors == old(lookupErrors)
        invariant matched == "" ==> drops.categories == counters && FirstMatch(names, result.members[k..]) == hit
        invariant matched != "" ==> hit == Some(matched) && drops.categories == Bump(counters, hit)
      {
        var category := result.members[k];
        assert result.members[k..][1..] == result.members[k + 1..];
        if category.Some? {
          if matched == "" {
            matched := drops.MatchAndIncrement(category.value);
          }
          if !(logging || matched == "") {
            break;
          }
        }
        k := k + 1;
      }
      if matched != "" {
        ipBad := true;
      }
    }

    /** `evaluate_argument`: false for an argument type the agent does not implement. */
    method EvaluateArgument(arg: Arg, db: Option<Db>, logging: bool, before: bool) returns (ok: bool, ipBad: bool)
      requires "" !in drops.categories
      modifies this, drops
      ensures ok == Supported(arg.value)
      ensures
        var hit := Blocking(old(drops.categories.Keys), db, arg.value);
        ipBad == (before || hit.Some?) && drops.categories == Bump(old(drops.categories), hit)
      ensures lookups == old(lookups) + One(LooksUp(db, arg.value))
      ensures lookupErrors == old(lookupErrors) + One(Fails(db, arg.value))
    {
      ipBad := before;
      if !Supported(arg.value) {
        return false, before;
      }
      if db.None? {
        return true, before;
      }
      ipBad := EvaluateLookup(db.value(arg.value), logging, before);
      ok := true;
    }

    /** Everything the argument loops of `handle_notify` have done after `args`. */
    twostate predicate Handled(db: Option<Db>, args: seq<Arg>, notImplemented: bool, ipBad: bool)
      reads this, drops
    {
      After(old(Tally(drops.categories, lookups, lookupErrors)), Tally(drops.categories, lookups, lookupErrors),
            db, args, notImplemented, ipBad)
    }

    /** The loop over the arguments of one message. */
    method EvaluateMessage(args: seq<Arg>, db: Option<Db>, logging: bool, unsupported: bool, bad: bool,
                           ghost t0: Tally, ghost earlier: seq<Arg>)
      returns (notImplemented: bool, ipBad: bool)
      requires "" !in t0.counters
      requires After(t0, Tally(drops.categories, lookups, lookupErrors), db, earlier, unsupported, bad)
      modifies this, drops
      ensures After(t0, Tally(drops.categories, lookups, lookupErrors), db, earlier + args, notImplemented, ipBad)
    {
      notImplemented, ipBad := unsupported, bad;
      assert earlier + args[..0] == earlier;
      for k := 0 to |args|
        invariant After(t0, Tally(drops.categories, lookups, lookupErrors), db, earlier + args[..k], notImplemented, ipBad)
      {
        ghost var t := Tally(drops.categories, lookups, lookupErrors);
        var ok, worse := EvaluateArgument(args[k], db, logging, ipBad);
        AfterOneMore(t0, t, Tally(drops.categories, lookups, lookupErrors), db, earlier + args[..k], args[k],
                     notImplemented, ipBad);
        assert earlier + args[..k] + [args[k]] == earlier + args[..k + 1];
        ipBad := worse;
        if !ok {
          notImplemented := true;
        }
      }
      assert args[..|args|] == args;
    }

    /** The loop over the messages. */
    method EvaluateAll(messages: seq<Message>, db: Option<Db>, logging: bool)
      returns (notImplemented: bool, ipBad: bool)
      requires "" !in drops.categories
      modifies this, drops
      ensures Handled(db, AllArgs(messages), notImplemented, ipBad)
    {
      notImplemented, ipBad := false, false;
      ghost var t0 := Tally(drops.categories, lookups, lookupErrors);
      for m := 0 to |messages|
        invariant After(t0, Tally(drops.categories, lookups, lookupErrors), db, AllArgs(messages[..m]), notImplemented, ipBad)
      {
        assert messages[..m + 1][..m] == messages[..m];
        notImplemented, ipBad := EvaluateMessage(messages[m].args, db, logging, notImplemented, ipBad,
                                                 t0, AllArgs(messages[..m]));
      }
      assert messages[..|messages|] == messages;
    }

    /**
     `handle_notify`. A frame with an unsupported argument is answered by a disconnect; any other
     by an ACK from which the receiver reads the session variable `ip_bad`, true exactly if some
     argument of some message was found in a configured category. The ACK is encoded in a 64-byte
     buffer, which always suffices.
     */
    method HandleNotify(f: InFrame, db: Option<Db>, logging: bool) returns (r: Reply)
      requires f.Notify? && "" !in drops.categories
      modifies this, drops
      ensures r.stop == SomeUnsupported(AllArgs(f.messages))
      ensures Handled(db, AllArgs(f.messages), r.stop, SomeBlocked(old(drops.categories.Keys), db, AllArgs(f.messages)))
      ensures r.stop ==> Refusal(r.bytes)
      ensures !r.stop ==>
        Acknowledges(r.bytes, f.streamId, f.frameId, SomeBlocked(old(drops.categories.Keys), db, AllArgs(f.messages)))
      ensures r.stop <==> exists m: nat, a: nat :: UnsupportedAt(f.messages, m, a)
      ensures !r.stop ==>
        var bad := exists m: nat, a: nat, k: nat :: HitAt(old(drops.categories.Keys), db, f.messages, m, a, k);
        ReceivedAs(r.bytes, f.streamId, f.frameId, [AckVar(Session, Ascii("ip_bad"), Boolean(bad))])
    {
      SomeUnsupportedIff(f.messages);
      SomeBlockedIff(drops.categories.Keys, db, f.messages);
      var notImplemented, ipBad := EvaluateAll(f.messages, db, logging);
      if notImplemented {
        var refusal := Refuse();
        return Reply(refusal, true);
      }
      var bytes := Acknowledge(f.streamId, f.frameId, ipBad);
      AckReadsBack(bytes, f.streamId, f.frameId, ipBad);
      r := Reply(bytes, false);
    }

    /** `handle_frame`: what is answered to a payload of the given type. */
    method HandleFrame(kind: byte, payload: seq<byte>, db: Option<Db>, logging: bool) returns (r: Reply)
      requires "" !in drops.categories
      modifies this, drops
      ensures Handled(db, ArgsOf(FrameOf(kind, payload)), SomeUnsupported(ArgsOf(FrameOf(kind, payload))),
                      SomeBlocked(old(drops.categories.Keys), db, ArgsOf(FrameOf(kind, payload))))
      ensures Answers(FrameOf(kind, payload), r, SomeBlocked(old(drops.categories.Keys), db, ArgsOf(FrameOf(kind, payload))))
    {
      var f := Parse(kind, payload);
      if f.None? {
        return Reply([], true);
      }
      if f.value.HaproxyHello? {
        var hello := EncodeAgentHello(f.value.streamId, f.value.frameId, f.value.maxFrameSize);
        return Reply(hello, false);
      }
      if f.value.HaproxyDisconnect? {
        return Reply([], true);
      }
      r := HandleNotify(f.value, db, logging);
    }
  }

  /** The arguments a frame asks about. */
  function ArgsOf(f: Option<InFrame>): seq<Arg> {
    if f.Some? && f.value.Notify? then AllArgs(f.value.messages) else []
  }

  /** The reply owed to a frame: nothing but the end of the connection for malformed input and disconnects. */
  ghost predicate Answers(f: Option<InFrame>, r: Reply, ipBad: bool) {
    if f.None? || f.value.HaproxyDisconnect? then r == Reply([], true)
    else if f.value.HaproxyHello? then
      !r.stop && Greets(r.bytes, f.value.streamId, f.value.frameId, f.value.maxFrameSize)
    else
      && r.stop == SomeUnsupported(AllArgs(f.value.messages))
      && (r.stop ==> Refusal(r.bytes))
      && (!r.stop ==> Acknowledges(r.bytes, f.value.streamId, f.value.frameId, ipBad))
  }

  lemma AfterOneMore(t0: Tally, t: Tally, t': Tally, db: Option<Db>, args: seq<Arg>, a: Arg, unsupported: bool, bad: bool)
    requires After(t0, t, db, args, unsupported, bad)
    requires t'.counters == Bump(t.counters, Blocking(t.counters.Keys, db, a.value))
    requires t'.lookups == t.lookups + One(LooksUp(db, a.value)) && t'.errors == t.errors + One(Fails(db, a.value))
    ensures After(t0, t', db, args + [a], unsupported || !Supported(a.value),
                  bad || Blocking(t.counters.Keys, db, a.value).Some?)
  {
    OneMore(t0.counters.Keys, db, args, a);
    CountersConserve(t0.counters, db, args);
    CountersConserve(t0.counters, db, args + [a]);
  }

  lemma OneMore(names: set<string>, db: Option<Db>, args: seq<Arg>, a: Arg)
    ensures (args + [a])[..|args|] == args
    ensures SomeUnsupported(args + [a]) <==> SomeUnsupported(args) || !Supported(a.value)
    ensures SomeBlocked(names, db, args + [a]) <==> SomeBlocked(names, db, args) || Blocking(names, db, a.value).Some?
  {
    var all := args + [a];
    assert forall k | 0 <= k < |args| :: all[k] == args[k];
    assert all[|args|] == a;
    if SomeUnsupported(args) {
      var k :| 0 <= k < |args| && !Supported(args[k].value);
      assert !Supported(all[k].value);
    }
    if SomeBlocked(names, db, args) {
      var k :| 0 <= k < |args| && Blocking(names, db, args[k].value).Some?;
      assert Blocking(names, db, all[k].value).Some?;
    }
  }

  // ---------- responses ----------

  ghost predicate Acknowledges(bytes: seq<byte>, streamId: u64, frameId: u64, ipBad: bool) {
    && Sendable(streamId, frameId, |Joined(ActionWire, IpBad(ipBad))|)
    && bytes == AckWire(streamId, frameId, IpBad(ipBad))
  }

  function RefusalText(): Text {
    Ascii("agent does not implement argument type")
  }

  ghost predicate Refusal(bytes: seq<byte>) {
    && Sendable(0, 0, |Joined(ArgWire, DisconnectFields(STATUS_NOT_IMPLEMENTED, RefusalText()))|)
    && bytes == FrameWire(AGENT_DISCONNECT, 0, 0, Joined(ArgWire, DisconnectFields(STATUS_NOT_IMPLEMENTED, RefusalText())))
  }

  ghost predicate Greets(bytes: seq<byte>, streamId: u64, frameId: u64, maxFrameSize: u32) {
    && Sendable(streamId, frameId, |Joined(ArgWire, HelloFields(maxFrameSize))|)
    && bytes == FrameWire(AGENT_HELLO, streamId, frameId, Joined(ArgWire, HelloFields(maxFrameSize)))
  }

  method Refuse() returns (bytes: seq<byte>)
    ensures Refusal(bytes)
  {
    DisconnectFits(0, 0, STATUS_NOT_IMPLEMENTED, RefusalText());
    var r := EncodeAgentDisconnect(0, 0, STATUS_NOT_IMPLEMENTED, RefusalText());
    bytes := r.value;
  }

  /** The 64-byte buffer of `handle_notify`; the fallback for longer ACKs is never taken. */
  method Acknowledge(streamId: u64, frameId: u64, ipBad: bool) returns (bytes: seq<byte>)
    ensures Acknowledges(bytes, streamId, frameId, ipBad)
  {
    IpBadFits(streamId, frameId, ipBad);
    var buffer := new byte[64];
    var written := EncodeAckInto(buffer, streamId, frameId, IpBad(ipBad));
    assert written.value > 0;
    bytes := buffer[..written.value];
  }

  /** An ACK of the given ids whose actions a receiver reads as `vars`. */
  ghost predicate ReceivedAs(bytes: seq<byte>, streamId: u64, frameId: u64, vars: seq<AckVar>) {
    && |bytes| > 5 && BigEndian(bytes[..4]) == |bytes| - 4 && bytes[4] == 0x67
    && EnvelopeOf(bytes[5..]).Some? && EnvelopeOf(bytes[5..]).value.0 == streamId
    && EnvelopeOf(bytes[5..]).value.1 == frameId && Sound(ActionOf, 1)
    && All(ActionOf, EnvelopeOf(bytes[5..]).value.2) == Some(vars)
  }

  /** The receiver of an ACK finds one session variable, with the decision as its value. */
  lemma AckReadsBack(bytes: seq<byte>, streamId: u64, frameId: u64, ipBad: bool)
    requires Acknowledges(bytes, streamId, frameId, ipBad)
    ensures ReceivedAs(bytes, streamId, frameId, [AckVar(Session, Ascii("ip_bad"), Boolean(ipBad))])
  {
    FrameReadsBack(AGENT_ACK, streamId, frameId, Joined(ActionWire, IpBad(ipBad)));
    ActionsRoundTrip(IpBad(ipBad));
  }
}
