/**
 * The member events: the welcome message and the auto-role loop run when a
 * member joins, and the goodbye message sent when one leaves.
 *
 * The channels the bot can reach and the roles the server can resolve are
 * sets; the outcome of each role grant on the joining member is a given
 * function of the role id.
 */
module Events {
  import opened Settings

  /** The welcome template used when the record has none. */
  const DefaultWelcome: string := "\U{1F389} Bienvenue {user.mention} sur le serveur ! \U{1F44B}"

  /** The goodbye template used when the record has none. */
  const DefaultGoodbye: string := "\U{1F44B} {user.mention} a quitt\U{00E9} le serveur."

  /** The message the welcome command stores when it is given none. */
  const CommandWelcome: string := "\U{1F389} Bienvenue {user.mention} sur le serveur ! \U{1F44B}"

  /** The message the goodbye command stores when it is given none; not the departure fallback above. */
  const CommandGoodbye: string := " Au revoir {user.mention} \U{1F44B}"

  /** A message to send: the channel and the (unrendered) template. */
  datatype Outgoing = Outgoing(channel: int, template: string)

  /**
   * The message sent for a configured channel and template: nothing unless the
   * channel is set, non-zero and reachable; the record's template, else the
   * fallback.
   */
  function Announcement(channel: Option<int>, template: Option<string>, fallback: string, channels: set<int>): (m: Option<Outgoing>)
    ensures m.Some? <==> ChannelConfigured(channel) && channel.value in channels
    ensures m.Some? ==> m.value.channel == channel.value
    ensures m.Some? && template.Some? ==> m.value.template == template.value
    ensures m.Some? && template.None? ==> m.value.template == fallback
  {
    if ChannelConfigured(channel) && channel.value in channels then
      Some(Outgoing(channel.value, match template case Some(t) => t case None => fallback))
    else None
  }

  /** The welcome message sent when a member joins a server with settings `s`. */
  function WelcomeMessage(s: ServerSettings, channels: set<int>): (m: Option<Outgoing>)
    ensures m.Some? <==> ChannelConfigured(s.welcomeChannel) && s.welcomeChannel.value in channels
    ensures m.Some? ==> m.value.channel == s.welcomeChannel.value
    ensures m.Some? ==> m.value.template == (if s.welcomeMessage.Some? then s.welcomeMessage.value else DefaultWelcome)
  {
    Announcement(s.welcomeChannel, s.welcomeMessage, DefaultWelcome, channels)
  }

  /** The goodbye message sent when a member leaves a server with settings `s`. */
  function GoodbyeMessage(s: ServerSettings, channels: set<int>): (m: Option<Outgoing>)
    ensures m.Some? <==> ChannelConfigured(s.goodbyeChannel) && s.goodbyeChannel.value in channels
    ensures m.Some? ==> m.value.channel == s.goodbyeChannel.value
    ensures m.Some? ==> m.value.template == (if s.goodbyeMessage.Some? then s.goodbyeMessage.value else DefaultGoodbye)
  {
    Announcement(s.goodbyeChannel, s.goodbyeMessage, DefaultGoodbye, channels)
  }

  /** After the welcome command, a join announces the configured template in the configured channel. */
  lemma WelcomeAfterConfig(s: ServerSettings, channel: int, message: string, channels: set<int>)
    ensures WelcomeMessage(WelcomeUpdate(s, channel, message), channels) ==
            (if channel != 0 && channel in channels then Some(Outgoing(channel, message)) else None)
  {
  }

  /** After the goodbye command, a departure announces the configured template in the configured channel. */
  lemma GoodbyeAfterConfig(s: ServerSettings, channel: int, message: string, channels: set<int>)
    ensures GoodbyeMessage(GoodbyeUpdate(s, channel, message), channels) ==
            (if channel != 0 && channel in channels then Some(Outgoing(channel, message)) else None)
  {
  }

  /** The goodbye command does not change what a join announces, and the welcome command does not change departures. */
  lemma UpdatesIndependent(s: ServerSettings, channel: int, message: string, channels: set<int>)
    ensures WelcomeMessage(GoodbyeUpdate(s, channel, message), channels) == WelcomeMessage(s, channels)
    ensures GoodbyeMessage(WelcomeUpdate(s, channel, message), channels) == GoodbyeMessage(s, channels)
  {
  }

  /**
   * Whether announcing `m` returns normally: there is nothing to send, or the
   * template renders for the member (`renders`) and the send goes through
   * (`sendOk`). Otherwise the error ends the event handler.
   */
  predicate AnnouncedWithoutError(m: Option<Outgoing>, renders: string -> bool, sendOk: bool) {
    m.None? || (renders(m.value.template) && sendOk)
  }

  /** The message actually sent: the announcement, when it renders and its send succeeds. */
  function Sent(m: Option<Outgoing>, renders: string -> bool, sendOk: bool): (r: Option<Outgoing>)
    ensures r.Some? <==> m.Some? && renders(m.value.template) && sendOk
    ensures r.Some? ==> r == m
  {
    if m.Some? && renders(m.value.template) && sendOk then m else None
  }

  // ---------------------------------------------------------------------------
  // The join role loop

  /**
   * The outcome of one role grant: success, the permission error the loop
   * catches, or any other error, which the loop does not catch.
   */
  datatype GrantResult = Granted | Forbidden | Failed

  datatype JoinAttempt = JoinAttempt(role: int, result: GrantResult)

  /** The loop's result: the grants performed, and whether an uncaught error ended it. */
  datatype JoinRun = JoinRun(attempts: seq<JoinAttempt>, aborted: bool)

  /** The join role loop over `roles`, from the first configured role. */
  function JoinSpec(roles: seq<int>, resolvable: set<int>, outcome: int -> GrantResult): JoinRun
  {
    if roles == [] then JoinRun([], false)
    else if roles[0] !in resolvable then JoinSpec(roles[1..], resolvable, outcome)
    else if outcome(roles[0]) == Failed then JoinRun([JoinAttempt(roles[0], Failed)], true)
    else
      var rest := JoinSpec(roles[1..], resolvable, outcome);
      JoinRun([JoinAttempt(roles[0], outcome(roles[0]))] + rest.attempts, rest.aborted)
  }

  /**
   * The loop as written: every configured role that resolves is granted; a
   * permission error is caught and the loop goes on, any other error ends it.
   */
  method JoinRoles(roles: seq<int>, resolvable: set<int>, outcome: int -> GrantResult) returns (run: JoinRun)
    ensures run == JoinSpec(roles, resolvable, outcome)
  {
    var attempts: seq<JoinAttempt> := [];
    var r := 0;
    while r < |roles|
      invariant 0 <= r <= |roles|
      invariant JoinSpec(roles, resolvable, outcome) ==
                JoinRun(attempts + JoinSpec(roles[r..], resolvable, outcome).attempts,
                        JoinSpec(roles[r..], resolvable, outcome).aborted)
    {
      var rid := roles[r];
      assert roles[r..][1..] == roles[r + 1..];
      if rid in resolvable {
        var result := outcome(rid);
        attempts := attempts + [JoinAttempt(rid, result)];
        if result == Failed {
          return JoinRun(attempts, true);
        }
      }
      r := r + 1;
    }
    return JoinRun(attempts, false);
  }

  /** The configured roles that resolve, in configuration order. */
  function ResolvedRoles(roles: seq<int>, resolvable: set<int>): (f: seq<int>)
    ensures forall x :: x in f <==> x in roles && x in resolvable
  {
    if roles == [] then []
    else (if roles[0] in resolvable then [roles[0]] else []) + ResolvedRoles(roles[1..], resolvable)
  }

  /** The role ids of a list of grants. */
  function RolesOf(attempts: seq<JoinAttempt>): (ids: seq<int>)
    ensures |ids| == |attempts|
    ensures forall k :: 0 <= k < |ids| ==> ids[k] == attempts[k].role
  {
    if attempts == [] then [] else [attempts[0].role] + RolesOf(attempts[1..])
  }

  /** The roles granted are a prefix of the configured roles that resolve. */
  lemma {:induction false} JoinRolesPrefix(roles: seq<int>, resolvable: set<int>, outcome: int -> GrantResult)
    ensures var ids := RolesOf(JoinSpec(roles, resolvable, outcome).attempts);
            |ids| <= |ResolvedRoles(roles, resolvable)| && ids == ResolvedRoles(roles, resolvable)[..|ids|]
  {
    if roles != [] {
      var rid, rest := roles[0], roles[1..];
      JoinRolesPrefix(rest, resolvable, outcome);
      if rid in resolvable && outcome(rid) != Failed {
        var tail := JoinSpec(rest, resolvable, outcome).attempts;
        assert ([JoinAttempt(rid, outcome(rid))] + tail)[1..] == tail;
      }
    }
  }

  /** Each grant is of a configured role that resolves, and records that role's outcome. */
  lemma {:induction false} JoinAttemptsSound(roles: seq<int>, resolvable: set<int>, outcome: int -> GrantResult)
    ensures forall a :: a in JoinSpec(roles, resolvable, outcome).attempts ==>
              a.role in roles && a.role in resolvable && a.result == outcome(a.role)
  {
    if roles != [] {
      JoinAttemptsSound(roles[1..], resolvable, outcome);
      assert forall x :: x in roles[1..] ==> x in roles;
    }
  }

  /**
   * The loop ends early exactly when some resolvable configured role fails
   * with an uncaught error; that failure is then the last grant, and no
   * earlier grant failed that way.
   */
  lemma {:induction false} JoinAbortsOnFailure(roles: seq<int>, resolvable: set<int>, outcome: int -> GrantResult)
    ensures var run := JoinSpec(roles, resolvable, outcome);
            && (run.aborted <==> exists rid :: rid in roles && rid in resolvable && outcome(rid) == Failed)
            && (run.aborted ==> |run.attempts| > 0 && run.attempts[|run.attempts| - 1].result == Failed)
            && (forall k :: 0 <= k < |run.attempts| - 1 ==> run.attempts[k].result != Failed)
  {
    if roles != [] {
      var rid, rest := roles[0], roles[1..];
      JoinAbortsOnFailure(rest, resolvable, outcome);
      assert forall x :: x in roles <==> x == rid || x in rest;
      if rid in resolvable && outcome(rid) != Failed {
        var tail := JoinSpec(rest, resolvable, outcome).attempts;
        var all := [JoinAttempt(rid, outcome(rid))] + tail;
        assert forall k :: 1 <= k < |all| ==> all[k] == tail[k - 1];
      }
    }
  }

  /** Without an uncaught error every resolvable configured role is granted, in order. */
  lemma JoinGrantsAllResolvable(roles: seq<int>, resolvable: set<int>, outcome: int -> GrantResult)
    requires forall rid :: rid in roles && rid in resolvable ==> outcome(rid) != Failed
    ensures !JoinSpec(roles, resolvable, outcome).aborted
    ensures RolesOf(JoinSpec(roles, resolvable, outcome).attempts) == ResolvedRoles(roles, resolvable)
  {
    JoinRolesPrefix(roles, resolvable, outcome);
    JoinAbortsOnFailure(roles, resolvable, outcome);
    JoinLength(roles, resolvable, outcome);
  }

  /** A loop that is not cut short visits every resolvable configured role. */
  lemma {:induction false} JoinLength(roles: seq<int>, resolvable: set<int>, outcome: int -> GrantResult)
    ensures !JoinSpec(roles, resolvable, outcome).aborted ==>
              |JoinSpec(roles, resolvable, outcome).attempts| == |ResolvedRoles(roles, resolvable)|
  {
    if roles != [] {
      JoinLength(roles[1..], resolvable, outcome);
    }
  }
}
