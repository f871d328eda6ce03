/**
 * The bulk auto-role backfill: over a snapshot of the human members, try to
 * grant every configured role a member lacks, count successes and failures,
 * and emit throttled progress edits followed by one final summary.
 *
 * The roles the server can resolve are a set, and the outcome of each grant
 * is a given total function of the member's position (1-based, as the loop
 * counts) and the role id. The role grants performed are returned as a log.
 */
module Backfill {
  import opened Progress

  datatype Member = Member(isBot: bool, held: set<int>)

  /** One role grant performed on member `member` (1-based position in the snapshot). */
  datatype Attempt = Attempt(member: nat, role: int, granted: bool)

  /** One progress edit of the status message. */
  datatype Edit = Edit(member: nat, total: nat, percent: nat, bar: string, added: nat, skipped: nat)

  /** The final edit: the counters and the role ids the run targeted. */
  datatype Summary = Summary(added: nat, skipped: nat, roles: seq<int>)

  datatype Outcome =
    | NothingConfigured
    | Completed(roleCount: nat, attempts: seq<Attempt>, edits: seq<Edit>, summary: Summary)

  type Grant = (nat, int) -> bool

  /** The snapshot: the non-bot members, in their original order. */
  function Humans(members: seq<Member>): (h: seq<Member>)
    ensures |h| <= |members|
    ensures forall k :: 0 <= k < |h| ==> !h[k].isBot
  {
    if members == [] then []
    else
      var last := members[|members| - 1];
      Humans(members[..|members| - 1]) + (if last.isBot then [] else [last])
  }

  /** How many attempts in the log have the given outcome. */
  function CountWhere(log: seq<Attempt>, granted: bool): nat {
    if log == [] then 0
    else CountWhere(log[..|log| - 1], granted) + (if log[|log| - 1].granted == granted then 1 else 0)
  }

  /** The attempts of the inner loop for member `i` over `roles`. */
  function MemberAttempts(i: nat, held: set<int>, roles: seq<int>, resolvable: set<int>, grant: Grant): seq<Attempt>
  {
    if roles == [] then []
    else
      var rid := roles[|roles| - 1];
      MemberAttempts(i, held, roles[..|roles| - 1], resolvable, grant) +
        (if rid in resolvable && rid !in held then [Attempt(i, rid, grant(i, rid))] else [])
  }

  datatype RunState = RunState(attempts: seq<Attempt>, edits: seq<Edit>)

  /** The edit shown after member `k` of `total`, with the counters of `log`. */
  function ProgressEdit(k: nat, total: nat, log: seq<Attempt>): Edit
    requires total > 0
  {
    var p := Percent(k, total);
    Edit(k, total, p, Bar(p), CountWhere(log, true), CountWhere(log, false))
  }

  /** The attempts of the first `k` members of the snapshot, in order. */
  function RunLog(humans: seq<Member>, k: nat, roles: seq<int>, resolvable: set<int>, grant: Grant): seq<Attempt>
    requires k <= |humans|
  {
    if k == 0 then []
    else RunLog(humans, k - 1, roles, resolvable, grant) + MemberAttempts(k, humans[k - 1].held, roles, resolvable, grant)
  }

  /** The attempt log and the emitted edits after the first `k` members of the snapshot. */
  function RunAfter(humans: seq<Member>, k: nat, roles: seq<int>, resolvable: set<int>, grant: Grant): RunState
    requires k <= |humans|
  {
    if k == 0 then RunState([], [])
    else
      var prev := RunAfter(humans, k - 1, roles, resolvable, grant);
      var log := RunLog(humans, k, roles, resolvable, grant);
      RunState(log, prev.edits + if ShouldEmit(k, |humans|) then [ProgressEdit(k, |humans|, log)] else [])
  }

  /** The engine: the nested loop over members and configured roles. */
  method RunBackfill(members: seq<Member>, roles: seq<int>, resolvable: set<int>, grant: Grant)
    returns (o: Outcome)
    ensures o.NothingConfigured? <==> roles == []
    ensures o.Completed? ==>
              var humans := Humans(members);
              var run := RunAfter(humans, |humans|, roles, resolvable, grant);
              && o.roleCount == |roles|
              && o.attempts == run.attempts
              && o.edits == run.edits
              && o.summary == Summary(CountWhere(run.attempts, true), CountWhere(run.attempts, false), roles)
    ensures o.Completed? ==>
              o.summary.added + o.summary.skipped == |o.attempts| <= |Humans(members)| * |roles|
    ensures o.Completed? ==>
              forall e :: e in o.edits ==>
                && 1 <= e.member <= e.total == |Humans(members)|
                && ShouldEmit(e.member, e.total)
                && e.percent <= 100 && |e.bar| == 10
    ensures o.Completed? && |Humans(members)| > 0 ==>
              && |o.edits| > 0
              && o.edits[|o.edits| - 1].member == |Humans(members)|
              && o.edits[|o.edits| - 1].added == o.summary.added
              && o.edits[|o.edits| - 1].skipped == o.summary.skipped
  {
    if |roles| == 0 {
      return NothingConfigured;
    }
    var humans := Humans(members);
    var log, edits, added, skipped := ProcessMembers(humans, roles, resolvable, grant);
    o := Completed(|roles|, log, edits, Summary(added, skipped, roles));
    CompletedRunFacts(humans, roles, resolvable, grant);
  }

  /**
   * The outer loop: members in snapshot order, the inner loop for each, then
   * the throttled progress edit.
   */
  method ProcessMembers(humans: seq<Member>, roles: seq<int>, resolvable: set<int>, grant: Grant)
    returns (log: seq<Attempt>, edits: seq<Edit>, added: nat, skipped: nat)
    ensures RunAfter(humans, |humans|, roles, resolvable, grant) == RunState(log, edits)
    ensures added == CountWhere(log, true) && skipped == CountWhere(log, false)
  {
    var total := |humans|;
    added, skipped := 0, 0;
    log, edits := [], [];
    var i := 1;
    while i <= total
      invariant 1 <= i <= total + 1
      invariant RunAfter(humans, i - 1, roles, resolvable, grant) == RunState(log, edits)
      invariant added == CountWhere(log, true) && skipped == CountWhere(log, false)
    {
      log, added, skipped := GrantMemberRoles(i, humans[i - 1].held, roles, resolvable, grant, log, added, skipped);
      var progress := Percent(i, total);
      if progress % 10 == 0 || i == total {
        edits := edits + [Edit(i, total, progress, Bar(progress), added, skipped)];
      }
      RunAfterStep(humans, i, roles, resolvable, grant);
      i := i + 1;
    }
  }

  /**
   * The inner loop for member `i`: every configured role that resolves and
   * that the member lacks is granted, and the counters follow the outcomes.
   */
  method GrantMemberRoles(i: nat, held: set<int>, roles: seq<int>, resolvable: set<int>, grant: Grant,
                          log0: seq<Attempt>, added0: nat, skipped0: nat)
    returns (log: seq<Attempt>, added: nat, skipped: nat)
    requires added0 == CountWhere(log0, true) && skipped0 == CountWhere(log0, false)
    ensures log == log0 + MemberAttempts(i, held, roles, resolvable, grant)
    ensures added == CountWhere(log, true) && skipped == CountWhere(log, false)
  {
    log, added, skipped := log0, added0, skipped0;
    var r := 0;
    while r < |roles|
      invariant 0 <= r <= |roles|
      invariant log == log0 + MemberAttempts(i, held, roles[..r], resolvable, grant)
      invariant added == CountWhere(log, true) && skipped == CountWhere(log, false)
    {
      var rid := roles[r];
      if rid in resolvable && rid !in held {
        var ok := grant(i, rid);
        assert && log + [Attempt(i, rid, ok)] == log0 + MemberAttempts(i, held, roles[..r + 1], resolvable, grant)
               && CountWhere(log + [Attempt(i, rid, ok)], true) == added + (if ok then 1 else 0)
               && CountWhere(log + [Attempt(i, rid, ok)], false) == skipped + (if ok then 0 else 1) by {
          MemberAttemptsSnoc(i, held, roles, r, resolvable, grant);
          CountSnoc(log, Attempt(i, rid, ok));
        }
        log := log + [Attempt(i, rid, ok)];
        if ok {
          added := added + 1;
        } else {
          skipped := skipped + 1;
        }
      } else {
        assert MemberAttempts(i, held, roles[..r + 1], resolvable, grant) == MemberAttempts(i, held, roles[..r], resolvable, grant) by {
          MemberAttemptsSnoc(i, held, roles, r, resolvable, grant);
        }
      }
      r := r + 1;
    }
    assert roles[..|roles|] == roles;
  }

  /** The recurrence of `RunAfter` for one more member. */
  lemma RunAfterStep(humans: seq<Member>, k: nat, roles: seq<int>, resolvable: set<int>, grant: Grant)
    requires 1 <= k <= |humans|
    ensures var prev := RunAfter(humans, k - 1, roles, resolvable, grant);
            var log := prev.attempts + MemberAttempts(k, humans[k - 1].held, roles, resolvable, grant);
            RunAfter(humans, k, roles, resolvable, grant) ==
              RunState(log, prev.edits + if ShouldEmit(k, |humans|) then [ProgressEdit(k, |humans|, log)] else [])
  {
  }

  /** What the engine promises about a completed run, stated on the specification. */
  lemma CompletedRunFacts(humans: seq<Member>, roles: seq<int>, resolvable: set<int>, grant: Grant)
    ensures var run := RunAfter(humans, |humans|, roles, resolvable, grant);
            CountWhere(run.attempts, true) + CountWhere(run.attempts, false) == |run.attempts| <= |humans| * |roles|
    ensures forall e :: e in RunAfter(humans, |humans|, roles, resolvable, grant).edits ==>
              && 1 <= e.member <= e.total == |humans|
              && ShouldEmit(e.member, e.total)
              && e.percent <= 100 && |e.bar| == 10
    ensures |humans| > 0 ==>
              var run := RunAfter(humans, |humans|, roles, resolvable, grant);
              && |run.edits| > 0
              && run.edits[|run.edits| - 1].member == |humans|
              && run.edits[|run.edits| - 1].added == CountWhere(run.attempts, true)
              && run.edits[|run.edits| - 1].skipped == CountWhere(run.attempts, false)
  {
    RunBounds(humans, |humans|, roles, resolvable, grant);
    CountSplit(RunLog(humans, |humans|, roles, resolvable, grant));
    RunEditsShape(humans, |humans|, roles, resolvable, grant);
    if |humans| > 0 {
      LastEditIsFinal(humans, roles, resolvable, grant);
    }
  }

  // ---------------------------------------------------------------------------
  // Counting

  lemma CountSnoc(log: seq<Attempt>, a: Attempt)
    ensures CountWhere(log + [a], true) == CountWhere(log, true) + (if a.granted then 1 else 0)
    ensures CountWhere(log + [a], false) == CountWhere(log, false) + (if a.granted then 0 else 1)
  {
    assert (log + [a])[..|log|] == log;
  }

  lemma {:induction false} CountAppend(a: seq<Attempt>, b: seq<Attempt>, granted: bool)
    ensures CountWhere(a + b, granted) == CountWhere(a, granted) + CountWhere(b, granted)
    decreases |b|
  {
    if b == [] {
      assert a + b == a;
    } else {
      var init, last := b[..|b| - 1], b[|b| - 1];
      assert a + b == (a + init) + [last];
      assert (a + b)[..|a + b| - 1] == a + init;
      CountAppend(a, init, granted);
    }
  }

  /** Every attempt is counted exactly once: as added or as skipped. */
  lemma {:induction false} CountSplit(log: seq<Attempt>)
    ensures CountWhere(log, true) + CountWhere(log, false) == |log|
  {
    if log != [] {
      CountSplit(log[..|log| - 1]);
    }
  }

  /** A longer prefix never has smaller counters. */
  lemma CountPrefixMonotone(a: seq<Attempt>, b: seq<Attempt>, granted: bool)
    ensures CountWhere(a, granted) <= CountWhere(a + b, granted)
  {
    CountAppend(a, b, granted);
  }

  // ---------------------------------------------------------------------------
  // One member

  /**
   * The effect of one more configured role on one member: an unresolvable or
   * already held role changes neither counter, a successful grant adds one to
   * `added` only, a failed grant adds one to `skipped` only.
   */
  lemma RoleStep(i: nat, held: set<int>, roles: seq<int>, rid: int, resolvable: set<int>, grant: Grant)
    ensures var before := MemberAttempts(i, held, roles, resolvable, grant);
            var after := MemberAttempts(i, held, roles + [rid], resolvable, grant);
            var tried := rid in resolvable && rid !in held;
            && CountWhere(after, true) == CountWhere(before, true) + (if tried && grant(i, rid) then 1 else 0)
            && CountWhere(after, false) == CountWhere(before, false) + (if tried && !grant(i, rid) then 1 else 0)
  {
    assert (roles + [rid])[..|roles|] == roles;
    var before := MemberAttempts(i, held, roles, resolvable, grant);
    var tail := if rid in resolvable && rid !in held then [Attempt(i, rid, grant(i, rid))] else [];
    CountAppend(before, tail, true);
    CountAppend(before, tail, false);
  }

  lemma {:induction false} MemberAttemptsBound(i: nat, held: set<int>, roles: seq<int>, resolvable: set<int>, grant: Grant)
    ensures |MemberAttempts(i, held, roles, resolvable, grant)| <= |roles|
  {
    if roles != [] {
      MemberAttemptsBound(i, held, roles[..|roles| - 1], resolvable, grant);
    }
  }

  /** One more iteration of the inner loop appends at most the attempt for `roles[r]`. */
  lemma MemberAttemptsSnoc(i: nat, held: set<int>, roles: seq<int>, r: nat, resolvable: set<int>, grant: Grant)
    requires r < |roles|
    ensures MemberAttempts(i, held, roles[..r + 1], resolvable, grant) ==
            MemberAttempts(i, held, roles[..r], resolvable, grant) +
            (if roles[r] in resolvable && roles[r] !in held then [Attempt(i, roles[r], grant(i, roles[r]))] else [])
  {
    assert roles[..r + 1][..r] == roles[..r];
  }

  /** Each attempt for member `i` is a resolvable configured role it lacked, with the grant's outcome. */
  lemma {:induction false} MemberAttemptsExact(i: nat, held: set<int>, roles: seq<int>, resolvable: set<int>, grant: Grant)
    ensures forall a :: a in MemberAttempts(i, held, roles, resolvable, grant) ==>
              a.member == i && a.role in roles && a.role in resolvable && a.role !in held && a.granted == grant(i, a.role)
    ensures forall rid :: rid in roles && rid in resolvable && rid !in held ==>
              Attempt(i, rid, grant(i, rid)) in MemberAttempts(i, held, roles, resolvable, grant)
  {
    if roles != [] {
      var init := roles[..|roles| - 1];
      MemberAttemptsExact(i, held, init, resolvable, grant);
      assert roles == init + [roles[|roles| - 1]];
    }
  }

  // ---------------------------------------------------------------------------
  // The whole run

  /** The log after `j` members is a prefix of the log after `k >= j` members. */
  lemma {:induction false} RunPrefix(humans: seq<Member>, j: nat, k: nat, roles: seq<int>, resolvable: set<int>, grant: Grant)
    requires j <= k <= |humans|
    ensures var a := RunLog(humans, j, roles, resolvable, grant);
            var b := RunLog(humans, k, roles, resolvable, grant);
            |a| <= |b| && b[..|a|] == a
  {
    if j < k {
      RunPrefix(humans, j, k - 1, roles, resolvable, grant);
    }
  }

  /** At most one attempt per member and configured role. */
  lemma {:induction false} RunBounds(humans: seq<Member>, k: nat, roles: seq<int>, resolvable: set<int>, grant: Grant)
    requires k <= |humans|
    ensures |RunLog(humans, k, roles, resolvable, grant)| <= k * |roles|
  {
    if k > 0 {
      RunBounds(humans, k - 1, roles, resolvable, grant);
      MemberAttemptsBound(k, humans[k - 1].held, roles, resolvable, grant);
      MulSucc(k, |roles|);
    }
  }

  lemma MulSucc(k: nat, n: nat)
    requires k > 0
    ensures (k - 1) * n + n == k * n
  {
  }

  /**
   * Every attempt of the first `k` members is of a configured, resolvable
   * role that its member lacked, and records the grant's outcome.
   */
  lemma {:induction false} RunAttemptsSound(humans: seq<Member>, k: nat, roles: seq<int>, resolvable: set<int>, grant: Grant)
    requires k <= |humans|
    ensures forall a :: a in RunLog(humans, k, roles, resolvable, grant) ==>
              && 1 <= a.member <= k && a.role in roles && a.role in resolvable
              && a.role !in humans[a.member - 1].held && a.granted == grant(a.member, a.role)
  {
    if k > 0 {
      RunAttemptsSound(humans, k - 1, roles, resolvable, grant);
      MemberAttemptsExact(k, humans[k - 1].held, roles, resolvable, grant);
    }
  }

  /** Every configured, resolvable role a member of the first `k` lacks was attempted on it. */
  lemma {:induction false} RunAttemptsComplete(humans: seq<Member>, k: nat, roles: seq<int>, resolvable: set<int>, grant: Grant)
    requires k <= |humans|
    ensures forall i, rid :: 1 <= i <= k && rid in roles && rid in resolvable && rid !in humans[i - 1].held ==>
              Attempt(i, rid, grant(i, rid)) in RunLog(humans, k, roles, resolvable, grant)
  {
    if k > 0 {
      var prev := RunLog(humans, k - 1, roles, resolvable, grant);
      var mine := MemberAttempts(k, humans[k - 1].held, roles, resolvable, grant);
      RunAttemptsComplete(humans, k - 1, roles, resolvable, grant);
      MemberAttemptsExact(k, humans[k - 1].held, roles, resolvable, grant);
      assert RunLog(humans, k, roles, resolvable, grant) == prev + mine;
      CompleteStep(humans, k, roles, resolvable, grant, prev, mine);
    }
  }

  /** Completeness for `k - 1` members and for member `k` gives completeness for `k` members. */
  lemma CompleteStep(humans: seq<Member>, k: nat, roles: seq<int>, resolvable: set<int>, grant: Grant,
                     prev: seq<Attempt>, mine: seq<Attempt>)
    requires 1 <= k <= |humans|
    requires forall i, rid :: 1 <= i <= k - 1 && rid in roles && rid in resolvable && rid !in humans[i - 1].held ==>
               Attempt(i, rid, grant(i, rid)) in prev
    requires forall rid :: rid in roles && rid in resolvable && rid !in humans[k - 1].held ==>
               Attempt(k, rid, grant(k, rid)) in mine
    ensures forall i, rid :: 1 <= i <= k && rid in roles && rid in resolvable && rid !in humans[i - 1].held ==>
              Attempt(i, rid, grant(i, rid)) in prev + mine
  {
    forall i, rid | 1 <= i <= k && rid in roles && rid in resolvable && rid !in humans[i - 1].held
      ensures Attempt(i, rid, grant(i, rid)) in prev + mine
    {
      if i < k {
        assert Attempt(i, rid, grant(i, rid)) in prev;
      } else {
        assert Attempt(i, rid, grant(i, rid)) in mine;
      }
    }
  }

  /** The attempts of a log are grouped by member, in increasing member order. */
  predicate MembersOrdered(log: seq<Attempt>) {
    forall a, b :: 0 <= a < b < |log| ==> log[a].member <= log[b].member
  }

  lemma OrderedConcat(x: seq<Attempt>, y: seq<Attempt>, m: nat)
    requires MembersOrdered(x)
    requires forall a :: a in x ==> a.member <= m
    requires forall a :: a in y ==> a.member == m
    ensures MembersOrdered(x + y)
  {
    forall a, b | 0 <= a < b < |x + y| ensures (x + y)[a].member <= (x + y)[b].member {
      if b < |x| {
        assert (x + y)[a] == x[a] && (x + y)[b] == x[b];
      } else if a < |x| {
        assert (x + y)[a] == x[a] && x[a] in x;
        assert (x + y)[b] == y[b - |x|] && y[b - |x|] in y;
      } else {
        assert (x + y)[a] == y[a - |x|] && y[a - |x|] in y;
        assert (x + y)[b] == y[b - |x|] && y[b - |x|] in y;
      }
    }
  }

  /** The attempts follow the snapshot order of the members. */
  lemma {:induction false} RunAttemptsOrdered(humans: seq<Member>, k: nat, roles: seq<int>, resolvable: set<int>, grant: Grant)
    requires k <= |humans|
    ensures MembersOrdered(RunLog(humans, k, roles, resolvable, grant))
  {
    if k > 0 {
      RunAttemptsOrdered(humans, k - 1, roles, resolvable, grant);
      RunAttemptsSound(humans, k - 1, roles, resolvable, grant);
      MemberAttemptsExact(k, humans[k - 1].held, roles, resolvable, grant);
      OrderedConcat(RunLog(humans, k - 1, roles, resolvable, grant),
                    MemberAttempts(k, humans[k - 1].held, roles, resolvable, grant), k);
    }
  }

  /**
   * An edit is faithful to the run when it shows its member's percentage and
   * bar and the counters as they stood right after that member.
   */
  predicate EditFaithful(humans: seq<Member>, roles: seq<int>, resolvable: set<int>, grant: Grant, e: Edit) {
    && 1 <= e.member <= |humans| && e.total == |humans|
    && e.percent == Percent(e.member, |humans|) && e.bar == Bar(e.percent)
    && var log := RunLog(humans, e.member, roles, resolvable, grant);
       e.added == CountWhere(log, true) && e.skipped == CountWhere(log, false)
  }

  /** The edits after `k` members are one per emit point, in order. */
  lemma {:induction false} RunEditsPoints(humans: seq<Member>, k: nat, roles: seq<int>, resolvable: set<int>, grant: Grant)
    requires 0 < |humans| && k <= |humans|
    ensures |RunAfter(humans, k, roles, resolvable, grant).edits| == |EmitPoints(|humans|, k)|
    ensures forall j :: 0 <= j < |EmitPoints(|humans|, k)| ==>
              RunAfter(humans, k, roles, resolvable, grant).edits[j].member == EmitPoints(|humans|, k)[j]
  {
    if k > 0 {
      RunEditsPoints(humans, k - 1, roles, resolvable, grant);
    }
  }

  /** Every edit emitted during the first `k` members is faithful to the run. */
  lemma {:induction false} RunEditsFaithful(humans: seq<Member>, k: nat, roles: seq<int>, resolvable: set<int>, grant: Grant)
    requires k <= |humans|
    ensures forall e :: e in RunAfter(humans, k, roles, resolvable, grant).edits ==>
              EditFaithful(humans, roles, resolvable, grant, e)
  {
    if k > 0 {
      RunEditsFaithful(humans, k - 1, roles, resolvable, grant);
      var prev := RunAfter(humans, k - 1, roles, resolvable, grant).edits;
      var run := RunAfter(humans, k, roles, resolvable, grant);
      var e := ProgressEdit(k, |humans|, run.attempts);
      assert run.edits == prev + if ShouldEmit(k, |humans|) then [e] else [];
      assert EditFaithful(humans, roles, resolvable, grant, e);
    }
  }

  /** Every emitted edit satisfies the throttle and shows a ten-segment bar. */
  lemma RunEditsShape(humans: seq<Member>, k: nat, roles: seq<int>, resolvable: set<int>, grant: Grant)
    requires k <= |humans|
    ensures forall e :: e in RunAfter(humans, k, roles, resolvable, grant).edits ==>
              && 1 <= e.member <= e.total == |humans|
              && ShouldEmit(e.member, e.total)
              && e.percent <= 100 && |e.bar| == 10
  {
    if 0 < |humans| {
      var edits := RunAfter(humans, k, roles, resolvable, grant).edits;
      var pts := EmitPoints(|humans|, k);
      RunEditsPoints(humans, k, roles, resolvable, grant);
      RunEditsFaithful(humans, k, roles, resolvable, grant);
      EmitPointsMembers(|humans|, k);
      forall e | e in edits ensures ShouldEmit(e.member, e.total) {
        var j :| 0 <= j < |edits| && edits[j] == e;
        assert pts[j] in pts;
      }
    }
  }

  /** The last member always emits, and that edit shows the run's final totals. */
  lemma LastEditIsFinal(humans: seq<Member>, roles: seq<int>, resolvable: set<int>, grant: Grant)
    requires |humans| > 0
    ensures var run := RunAfter(humans, |humans|, roles, resolvable, grant);
            && |run.edits| > 0
            && run.edits[|run.edits| - 1].member == |humans|
            && run.edits[|run.edits| - 1].added == CountWhere(run.attempts, true)
            && run.edits[|run.edits| - 1].skipped == CountWhere(run.attempts, false)
  {
    var edits := RunAfter(humans, |humans|, roles, resolvable, grant).edits;
    RunEditsPoints(humans, |humans|, roles, resolvable, grant);
    RunEditsFaithful(humans, |humans|, roles, resolvable, grant);
    LastMemberEmits(|humans|);
    assert edits[|edits| - 1] in edits;
  }

  /** The counters shown by successive edits never decrease. */
  lemma EditCountersMonotone(humans: seq<Member>, k: nat, roles: seq<int>, resolvable: set<int>, grant: Grant)
    requires 0 < |humans| && k <= |humans|
    ensures var edits := RunAfter(humans, k, roles, resolvable, grant).edits;
            forall a, b :: 0 <= a < b < |edits| ==>
              edits[a].added <= edits[b].added && edits[a].skipped <= edits[b].skipped
  {
    var edits := RunAfter(humans, k, roles, resolvable, grant).edits;
    var pts := EmitPoints(|humans|, k);
    RunEditsPoints(humans, k, roles, resolvable, grant);
    RunEditsFaithful(humans, k, roles, resolvable, grant);
    EmitPointsIncreasing(|humans|, k);
    forall a, b | 0 <= a < b < |edits|
      ensures edits[a].added <= edits[b].added && edits[a].skipped <= edits[b].skipped
    {
      assert edits[a] in edits && edits[b] in edits;
      CountersMonotone(humans, edits[a].member, edits[b].member, roles, resolvable, grant);
    }
  }

  /** The counters after `j` members never exceed those after `k >= j` members. */
  lemma CountersMonotone(humans: seq<Member>, j: nat, k: nat, roles: seq<int>, resolvable: set<int>, grant: Grant)
    requires j <= k <= |humans|
    ensures var a := RunLog(humans, j, roles, resolvable, grant);
            var b := RunLog(humans, k, roles, resolvable, grant);
            CountWhere(a, true) <= CountWhere(b, true) && CountWhere(a, false) <= CountWhere(b, false)
  {
    var a := RunLog(humans, j, roles, resolvable, grant);
    var b := RunLog(humans, k, roles, resolvable, grant);
    RunPrefix(humans, j, k, roles, resolvable, grant);
    assert b == a + b[|a|..];
    CountPrefixMonotone(a, b[|a|..], true);
    CountPrefixMonotone(a, b[|a|..], false);
  }

  // ---------------------------------------------------------------------------
  // The snapshot

  /** The snapshot of a concatenation is the concatenation of the snapshots: order is kept. */
  lemma {:induction false} HumansAppend(a: seq<Member>, b: seq<Member>)
    ensures Humans(a + b) == Humans(a) + Humans(b)
    decreases |b|
  {
    if b == [] {
      assert a + b == a;
    } else {
      var init := b[..|b| - 1];
      assert (a + b)[..|a + b| - 1] == a + init;
      assert (a + b)[|a + b| - 1] == b[|b| - 1];
      HumansAppend(a, init);
    }
  }

  /** The snapshot holds exactly the non-bot members. */
  lemma {:induction false} HumansMembers(members: seq<Member>)
    ensures forall m :: m in Humans(members) <==> m in members && !m.isBot
  {
    if members != [] {
      var init := members[..|members| - 1];
      HumansMembers(init);
      assert members == init + [members[|members| - 1]];
    }
  }

  // ---------------------------------------------------------------------------
  // Running the backfill again

  /** The attempts of a log that failed. */
  function FailedOnly(log: seq<Attempt>): seq<Attempt> {
    if log == [] then []
    else
      var last := log[|log| - 1];
      FailedOnly(log[..|log| - 1]) + (if last.granted then [] else [last])
  }

  /** The failed attempts are exactly the attempts of the log that were not granted. */
  lemma {:induction false} FailedOnlyMembers(log: seq<Attempt>)
    ensures forall a :: a in FailedOnly(log) <==> a in log && !a.granted
  {
    if log != [] {
      FailedOnlyMembers(log[..|log| - 1]);
      assert log == log[..|log| - 1] + [log[|log| - 1]];
    }
  }

  lemma {:induction false} FailedOnlyAppend(a: seq<Attempt>, b: seq<Attempt>)
    ensures FailedOnly(a + b) == FailedOnly(a) + FailedOnly(b)
    decreases |b|
  {
    if b == [] {
      assert a + b == a;
    } else {
      var init := b[..|b| - 1];
      assert (a + b)[..|a + b| - 1] == a + init;
      assert (a + b)[|a + b| - 1] == b[|b| - 1];
      FailedOnlyAppend(a, init);
    }
  }

  /** A log of failures counts no success, and as many failures as the original log. */
  lemma {:induction false} FailedOnlyCounts(log: seq<Attempt>)
    ensures CountWhere(FailedOnly(log), true) == 0
    ensures CountWhere(FailedOnly(log), false) == CountWhere(log, false)
  {
    if log != [] {
      var init, last := log[..|log| - 1], log[|log| - 1];
      FailedOnlyCounts(init);
      assert init == log[..|log| - 1];
      if last.granted {
        assert FailedOnly(log) == FailedOnly(init);
      } else {
        assert FailedOnly(log) == FailedOnly(init) + [last];
        CountSnoc(FailedOnly(init), last);
      }
    }
  }

  /** The roles member `i` holds once the run has granted it every successful role. */
  function ApplyGrants(i: nat, held: set<int>, roles: seq<int>, resolvable: set<int>, grant: Grant): (h: set<int>)
    ensures forall rid :: rid in roles ==> (rid in h <==> rid in held || (rid in resolvable && grant(i, rid)))
  {
    held + set rid | rid in roles && rid in resolvable && rid !in held && grant(i, rid)
  }

  /** The snapshot after a run: every member also holds the roles granted to it. */
  function Regranted(humans: seq<Member>, roles: seq<int>, resolvable: set<int>, grant: Grant): (r: seq<Member>)
    ensures |r| == |humans|
    ensures forall j :: 0 <= j < |r| ==> r[j].isBot == humans[j].isBot
  {
    seq(|humans|, j requires 0 <= j < |humans| =>
      Member(humans[j].isBot, ApplyGrants(j + 1, humans[j].held, roles, resolvable, grant)))
  }

  /**
   * For one member, once the granted roles are held, the inner loop attempts
   * exactly the grants that failed before.
   */
  lemma {:induction false} MemberRerun(i: nat, held: set<int>, after: set<int>, roles: seq<int>, resolvable: set<int>, grant: Grant)
    requires forall rid :: rid in roles ==> (rid in after <==> rid in held || (rid in resolvable && grant(i, rid)))
    ensures MemberAttempts(i, after, roles, resolvable, grant) == FailedOnly(MemberAttempts(i, held, roles, resolvable, grant))
  {
    if roles != [] {
      var init, rid := roles[..|roles| - 1], roles[|roles| - 1];
      assert forall x :: x in init ==> x in roles;
      MemberRerun(i, held, after, init, resolvable, grant);
      var tail := if rid in resolvable && rid !in held then [Attempt(i, rid, grant(i, rid))] else [];
      FailedOnlyAppend(MemberAttempts(i, held, init, resolvable, grant), tail);
      assert FailedOnly(tail) == (if rid in resolvable && rid !in held && !grant(i, rid) then tail else []);
    }
  }

  /**
   * Running the loop again on the snapshot with the granted roles added
   * attempts exactly the grants that failed the first time.
   */
  lemma {:induction false} RerunAttempts(humans: seq<Member>, k: nat, roles: seq<int>, resolvable: set<int>, grant: Grant)
    requires k <= |humans|
    ensures RunLog(Regranted(humans, roles, resolvable, grant), k, roles, resolvable, grant) ==
            FailedOnly(RunLog(humans, k, roles, resolvable, grant))
  {
    if k > 0 {
      var again := Regranted(humans, roles, resolvable, grant);
      var held, after := humans[k - 1].held, again[k - 1].held;
      assert after == ApplyGrants(k, held, roles, resolvable, grant);
      var mine := MemberAttempts(k, held, roles, resolvable, grant);
      var prev := RunLog(humans, k - 1, roles, resolvable, grant);
      RerunAttempts(humans, k - 1, roles, resolvable, grant);
      MemberRerun(k, held, after, roles, resolvable, grant);
      FailedOnlyAppend(prev, mine);
      assert RunLog(humans, k, roles, resolvable, grant) == prev + mine;
      assert RunLog(again, k, roles, resolvable, grant) ==
             RunLog(again, k - 1, roles, resolvable, grant) + MemberAttempts(k, after, roles, resolvable, grant);
    }
  }

  /**
   * With the same grant outcomes, a second backfill adds nothing and skips
   * exactly as many grants as the first.
   */
  lemma RerunAddsNothing(humans: seq<Member>, roles: seq<int>, resolvable: set<int>, grant: Grant)
    ensures var first := RunLog(humans, |humans|, roles, resolvable, grant);
            var again := Regranted(humans, roles, resolvable, grant);
            var second := RunLog(again, |again|, roles, resolvable, grant);
            CountWhere(second, true) == 0 && CountWhere(second, false) == CountWhere(first, false)
  {
    RerunAttempts(humans, |humans|, roles, resolvable, grant);
    FailedOnlyCounts(RunLog(humans, |humans|, roles, resolvable, grant));
  }

  // ---------------------------------------------------------------------------
  // Every grant succeeds

  lemma {:induction false} MemberAllGranted(i: nat, held: set<int>, roles: seq<int>, resolvable: set<int>, grant: Grant)
    requires forall rid :: rid in roles ==> rid in resolvable && rid !in held && grant(i, rid)
    ensures |MemberAttempts(i, held, roles, resolvable, grant)| == |roles|
    ensures CountWhere(MemberAttempts(i, held, roles, resolvable, grant), false) == 0
  {
    if roles != [] {
      var init, rid := roles[..|roles| - 1], roles[|roles| - 1];
      assert forall x :: x in init ==> x in roles;
      MemberAllGranted(i, held, init, resolvable, grant);
      CountSnoc(MemberAttempts(i, held, init, resolvable, grant), Attempt(i, rid, grant(i, rid)));
    }
  }

  /** No member holds a configured role, every configured role resolves and every grant succeeds. */
  predicate AllGrantable(humans: seq<Member>, roles: seq<int>, resolvable: set<int>, grant: Grant) {
    forall j, rid :: 0 <= j < |humans| && rid in roles ==>
      rid in resolvable && rid !in humans[j].held && grant(j + 1, rid)
  }

  /**
   * When no member holds a configured role, every role resolves and every
   * grant succeeds, each member gets every role: `added` is members times
   * roles and nothing is skipped.
   */
  lemma {:induction false} RunAllGranted(humans: seq<Member>, k: nat, roles: seq<int>, resolvable: set<int>, grant: Grant)
    requires k <= |humans|
    requires AllGrantable(humans, roles, resolvable, grant)
    ensures var log := RunLog(humans, k, roles, resolvable, grant);
            |log| == k * |roles| && CountWhere(log, true) == k * |roles| && CountWhere(log, false) == 0
  {
    var log := RunLog(humans, k, roles, resolvable, grant);
    if k > 0 {
      var prev := RunLog(humans, k - 1, roles, resolvable, grant);
      var mine := MemberAttempts(k, humans[k - 1].held, roles, resolvable, grant);
      RunAllGranted(humans, k - 1, roles, resolvable, grant);
      forall rid | rid in roles ensures rid in resolvable && rid !in humans[k - 1].held && grant(k, rid) {
        assert (k - 1) + 1 == k;
      }
      MemberAllGranted(k, humans[k - 1].held, roles, resolvable, grant);
      assert log == prev + mine;
      AllGrantedStep(prev, mine, k, |roles|);
    }
    CountSplit(log);
  }

  lemma AllGrantedStep(prev: seq<Attempt>, mine: seq<Attempt>, k: nat, n: nat)
    requires k > 0 && |prev| == (k - 1) * n && |mine| == n
    requires CountWhere(prev, false) == 0 && CountWhere(mine, false) == 0
    ensures |prev + mine| == k * n && CountWhere(prev + mine, false) == 0
  {
    CountAppend(prev, mine, false);
    MulSucc(k, n);
  }

  /**
   * Worked example: 23 members holding neither of two configured roles, both
   * resolvable and always granted. Progress is shown after members 7, 14 and
   * 23, and the run adds 46 roles and skips none.
   */
  lemma {:induction false} TwentyThreeMembersTwoRoles(humans: seq<Member>, roles: seq<int>, resolvable: set<int>, grant: Grant)
    requires |humans| == 23 && |roles| == 2
    requires AllGrantable(humans, roles, resolvable, grant)
    ensures var run := RunAfter(humans, |humans|, roles, resolvable, grant);
            && CountWhere(run.attempts, true) == 46 && CountWhere(run.attempts, false) == 0
            && |run.edits| == 3
            && run.edits[0].member == 7 && run.edits[1].member == 14 && run.edits[2].member == 23
  {
    RunAllGranted(humans, |humans|, roles, resolvable, grant);
    RunEditsPoints(humans, |humans|, roles, resolvable, grant);
    TwentyThreeMembersAt(|humans|);
  }

  lemma TwentyThreeMembersAt(n: nat)
    requires n == 23
    ensures EmitPoints(n, n) == [7, 14, 23]
  {
    TwentyThreeMembers();
  }
}
