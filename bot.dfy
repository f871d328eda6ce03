/**
 * The bot's state and its commands: the in-memory configuration loaded at
 * start-up, the configuration file (absent until the first save), the three
 * configuration commands, the settings view, the backfill command and the
 * two member events.
 */
module BotState {
  import opened Settings
  import opened AutoRoles
  import opened Backfill
  import opened Events

  datatype RoleAction = Add | Remove

  /** The confirmation chosen by the auto-role command. */
  datatype RoleReply = RoleAdded | AlreadyConfigured | RoleRemoved | NotConfigured

  /**
   * Which list object holds a record's auto-roles in memory: the one a record
   * loaded at start-up came with, the n-th list created since, or none when
   * the record has no "auto_roles" key (readers then see the empty list). Two
   * records with the same list see each other's in-place `append` and
   * `remove`; records without the key share nothing.
   */
  datatype ListId = Loaded(key: string) | Created(n: nat) | Missing

  /** Records that hold the same list object have the same auto-roles. */
  predicate ListsAgree(c: Store, lists: map<string, ListId>) {
    forall j, k :: j in c && k in c && j in lists && k in lists && lists[j] == lists[k] ==>
      c[j].autoRoles == c[k].autoRoles
  }

  /** Giving `serverId` list `id` keeps records in agreement when every other holder of `id` has its roles. */
  lemma ShareAgrees(c: Store, lists: map<string, ListId>, serverId: string, id: ListId)
    requires serverId in c && ListsAgree(c - {serverId}, lists)
    requires forall k :: k in c && k in lists && k != serverId && lists[k] == id ==> c[k].autoRoles == c[serverId].autoRoles
    ensures ListsAgree(c, lists[serverId := id])
  {
    var l := lists[serverId := id];
    forall j, k | j in c && k in c && j in l && k in l && l[j] == l[k]
      ensures c[j].autoRoles == c[k].autoRoles
    {
      if j != serverId && k != serverId {
        assert j in c - {serverId} && k in c - {serverId};
      }
    }
  }

  /** The records that have no "auto_roles" key. */
  function MissingKeys(lists: map<string, ListId>): (ks: set<string>)
    ensures forall k :: k in ks <==> k in lists && lists[k] == Missing
  {
    set k | k in lists && lists[k] == Missing
  }

  /**
   * The store after list `id` is changed in place to `roles`: every record
   * holding that list shows the new roles, and nothing else changes.
   */
  function WithListRoles(c: Store, lists: map<string, ListId>, id: ListId, roles: seq<int>): (r: Store)
    ensures r.Keys == c.Keys
    ensures forall k :: k in c && k in lists && lists[k] == id ==> r[k] == c[k].(autoRoles := roles)
    ensures forall k :: k in c && !(k in lists && lists[k] == id) ==> r[k] == c[k]
  {
    map k | k in c :: if k in lists && lists[k] == id then c[k].(autoRoles := roles) else c[k]
  }

  /** Changing one list in place keeps records that share a list in agreement. */
  lemma WithListRolesAgree(c: Store, lists: map<string, ListId>, id: ListId, roles: seq<int>)
    requires ListsAgree(c, lists)
    ensures ListsAgree(WithListRoles(c, lists, id, roles), lists)
  {
  }

  /** The in-memory configuration, the list held by each record, and how many lists were created. */
  type Memory = (Store, map<string, ListId>, nat)

  /**
   * `copy.deepcopy` of the default for a server without a record: a record
   * equal to the default with a new list, or with none when the default has
   * none. A server with a record is left as it is.
   */
  function CopiedState(c: Store, lists: map<string, ListId>, created: nat, serverId: string): (r: Memory)
    requires DefaultKey in c && lists.Keys == c.Keys
    ensures r.0 == c[serverId := Lookup(c, serverId, c[DefaultKey])] && r.1.Keys == r.0.Keys
    ensures forall k :: k in lists ==> r.1[k] == lists[k]
    ensures serverId !in c ==> (r.1[serverId] == Missing <==> lists[DefaultKey] == Missing)
    ensures serverId !in c && r.1[serverId] != Missing ==> r.1[serverId] == Created(created) && r.2 == created + 1
    ensures serverId in c || r.1[serverId] == Missing ==> r.2 == created
  {
    if serverId in c then (c, lists, created)
    else if lists[DefaultKey] == Missing then (c[serverId := c[DefaultKey]], lists[serverId := Missing], created)
    else (c[serverId := c[DefaultKey]], lists[serverId := Created(created)], created + 1)
  }

  /**
   * The add or remove on a server that has a record: when the role's presence
   * allows a change, a record without a list first gets the new list `get`
   * returned, and then every record holding the server's list shows the
   * updated roles; otherwise nothing changes.
   */
  function ChangedState(c: Store, lists: map<string, ListId>, created: nat,
                        serverId: string, roleId: int, action: RoleAction): (r: Memory)
    requires serverId in c && lists.Keys == c.Keys
    ensures r.0.Keys == c.Keys && r.1.Keys == c.Keys
    ensures r.0[serverId].autoRoles == UpdatedRoles(action, c[serverId].autoRoles, roleId)
    ensures forall k :: k in c && k != serverId ==> r.1[k] == lists[k]
  {
    var roles := UpdatedRoles(action, c[serverId].autoRoles, roleId);
    if roles == c[serverId].autoRoles then (c, lists, created)
    else
      var adopt := lists[serverId] == Missing;
      var ids := if adopt then lists[serverId := Created(created)] else lists;
      (WithListRoles(c, ids, ids[serverId], roles), ids, if adopt then created + 1 else created)
  }

  /** The auto-role command's effect on memory: the deep copy if needed, then the change. */
  function AutorolesAfter(c: Store, lists: map<string, ListId>, created: nat,
                          serverId: string, roleId: int, action: RoleAction): (r: Memory)
    requires DefaultKey in c && lists.Keys == c.Keys
    ensures r.0.Keys == c.Keys + {serverId} && r.1.Keys == r.0.Keys
    ensures r.0[serverId].autoRoles == UpdatedRoles(action, Lookup(c, serverId, c[DefaultKey]).autoRoles, roleId)
  {
    var m := CopiedState(c, lists, created, serverId);
    ChangedState(m.0, m.1, m.2, serverId, roleId, action)
  }

  /**
   * Which records the auto-role command touches: on the deep-copy path the
   * default stays as it was; a default sharing the server's list gets the
   * same roles; records holding another list do not change.
   */
  lemma AutorolesFrame(c: Store, lists: map<string, ListId>, created: nat,
                       serverId: string, roleId: int, action: RoleAction)
    requires DefaultKey in c && lists.Keys == c.Keys
    requires forall k :: k in lists && lists[k].Created? ==> lists[k].n < created
    requires ListsAgree(c, lists)
    ensures var r := AutorolesAfter(c, lists, created, serverId, roleId, action);
            && (serverId !in c ==> r.0[DefaultKey] == c[DefaultKey])
            && (serverId in c && lists[serverId] == lists[DefaultKey] && lists[DefaultKey] != Missing ==>
                  r.0[DefaultKey].autoRoles == UpdatedRoles(action, c[serverId].autoRoles, roleId))
            && (forall k :: k in c && k != serverId && lists[k] != r.1[serverId] ==> r.0[k] == c[k])
  {
    var m := CopiedState(c, lists, created, serverId);
    var r := AutorolesAfter(c, lists, created, serverId, roleId, action);
    assert r == ChangedState(m.0, m.1, m.2, serverId, roleId, action);
    if serverId !in c && m.1[serverId] != Missing {
      assert m.1[DefaultKey] != m.1[serverId];
    }
    forall k | k in c && k != serverId && lists[k] != r.1[serverId]
      ensures r.0[k] == c[k]
    {
      assert r.1[k] == lists[k];
    }
  }

  /** What the settings view shows: the channel only when one is set, the mention flag and the roles. */
  datatype View = View(welcomeChannel: Option<int>, mentionUser: bool, autoRoles: seq<int>)

  /** The auto-role list after the command. */
  function UpdatedRoles(action: RoleAction, roles: seq<int>, roleId: int): seq<int> {
    match action
    case Add => AddRole(roles, roleId)
    case Remove => RemoveRole(roles, roleId)
  }

  /** The confirmation: whether the role was added or removed, or why nothing changed. */
  function Reply(action: RoleAction, roles: seq<int>, roleId: int): RoleReply {
    match action
    case Add => if roleId in roles then AlreadyConfigured else RoleAdded
    case Remove => if roleId in roles then RoleRemoved else NotConfigured
  }

  /**
   * The command keeps a duplicate-free list duplicate-free, leaves the role
   * configured after an add and absent after a remove, and changes the list
   * (and so saves) exactly when it confirms a change.
   */
  lemma UpdatedRolesFacts(action: RoleAction, roles: seq<int>, roleId: int)
    ensures NoDup(roles) ==> NoDup(UpdatedRoles(action, roles, roleId))
    ensures action == Add ==> roleId in UpdatedRoles(action, roles, roleId)
    ensures action == Remove && NoDup(roles) ==> roleId !in UpdatedRoles(action, roles, roleId)
    ensures UpdatedRoles(action, roles, roleId) != roles <==> Reply(action, roles, roleId) in {RoleAdded, RoleRemoved}
  {
  }

  class Bot {
    /** The configuration held in memory (the module-level `config`). */
    var config: Store
    /** The configuration file's content; `None` while the file does not exist. */
    var file: Option<Store>
    /** The records of the file that have no "auto_roles" key. */
    var fileKeyless: set<string>
    /** The list object holding each in-memory record's auto-roles. */
    var lists: map<string, ListId>
    /** How many lists have been created since start-up. */
    var created: nat

    /** The file, when it exists, holds the default record, and its records without the key read as no roles. */
    predicate FileOk()
      reads this
    {
      && (file.Some? ==> DefaultKey in file.value)
      && (forall k :: k in fileKeyless ==> file.Some? && k in file.value && file.value[k].autoRoles == [])
    }

    /**
     * Every store the bot reads holds the default record, every in-memory
     * record has a list or none, created lists are numbered below `created`,
     * records sharing a list agree on it, and a record without a list has no
     * roles.
     */
    predicate Valid()
      reads this
    {
      && DefaultKey in config && FileOk()
      && lists.Keys == config.Keys
      && (forall k :: k in lists && lists[k].Created? ==> lists[k].n < created)
      && (forall k :: k in lists && lists[k] == Missing ==> config[k].autoRoles == [])
      && ListsAgree(config, lists)
    }

    /**
     * Start-up: the configuration is loaded once from the file, or created;
     * `keyless` names the file's records that have no "auto_roles" key, and
     * every other record has its own list.
     */
    constructor (file0: Option<Store>, keyless: set<string>)
      requires file0.Some? ==> DefaultKey in file0.value
      requires forall k :: k in keyless ==> file0.Some? && k in file0.value && file0.value[k].autoRoles == []
      ensures Valid()
      ensures config == LoadConfig(file0) && file == file0 && fileKeyless == keyless
      ensures lists == (map k | k in config :: if k in keyless then Missing else Loaded(k)) && created == 0
    {
      config := LoadConfig(file0);
      file := file0;
      fileKeyless := keyless;
      lists := map k | k in LoadConfig(file0) :: if k in keyless then Missing else Loaded(k);
      created := 0;
    }

    /**
     * The welcome command: reload the file, give the server a record copied
     * from the in-memory default if the file has none, set the welcome channel
     * and message (the command's default text when none is given), save the
     * reloaded store and put the record into memory. The copy is shallow: a
     * record copied from a default that has a list holds the default's own
     * list; otherwise `get("auto_roles", [])` yields the reloaded record's list
     * or a new empty one, which is written back under the key.
     */
    method ConfigWelcome(serverId: string, channel: int, message: Option<string>)
      requires Valid()
      modifies this
      ensures Valid()
      ensures var text := if message.Some? then message.value else CommandWelcome;
              var current := LoadConfig(old(file));
              var base := if serverId in current then current[serverId] else old(config)[DefaultKey];
              var rec := WelcomeUpdate(base, channel, text);
              var shared := serverId !in current && old(lists)[DefaultKey] != Missing;
              && file == Some(current[serverId := rec])
              && fileKeyless == old(fileKeyless) - {serverId}
              && config == old(config)[serverId := rec]
              && lists == old(lists)[serverId := if shared then old(lists)[DefaultKey] else Created(old(created))]
              && created == (if shared then old(created) else old(created) + 1)
    {
      var text := if message.Some? then message.value else CommandWelcome;
      var current := LoadConfig(file);
      ghost var base := if serverId in current then current[serverId] else config[DefaultKey];
      ghost var loaded := current;
      var copied := serverId !in current;
      if copied {
        current := current[serverId := config[DefaultKey]];
      }
      current := current[serverId := WelcomeUpdate(current[serverId], channel, text)];
      assert current == loaded[serverId := WelcomeUpdate(base, channel, text)];
      file := Some(current);
      fileKeyless := fileKeyless - {serverId};
      config := config[serverId := current[serverId]];
      var id := if copied && lists[DefaultKey] != Missing then lists[DefaultKey] else Created(created);
      Share(serverId, id);
    }

    /**
     * The goodbye command: as the welcome command, for the goodbye channel and
     * message; it writes no "auto_roles" key, so a record copied from a default
     * without the key, or reloaded without it, stays without one.
     */
    method ConfigGoodbye(serverId: string, channel: int, message: Option<string>)
      requires Valid()
      modifies this
      ensures Valid()
      ensures var text := if message.Some? then message.value else CommandGoodbye;
              var current := LoadConfig(old(file));
              var copied := serverId !in current;
              var base := if !copied then current[serverId] else old(config)[DefaultKey];
              var rec := GoodbyeUpdate(base, channel, text);
              var missing := if copied then old(lists)[DefaultKey] == Missing else serverId in old(fileKeyless);
              && file == Some(current[serverId := rec])
              && fileKeyless == (if copied && missing then old(fileKeyless) + {serverId} else old(fileKeyless))
              && config == old(config)[serverId := rec]
              && lists == old(lists)[serverId := if missing then Missing
                                               else if copied then old(lists)[DefaultKey]
                                               else Created(old(created))]
              && created == (if missing || copied then old(created) else old(created) + 1)
    {
      var text := if message.Some? then message.value else CommandGoodbye;
      var current := LoadConfig(file);
      ghost var base := if serverId in current then current[serverId] else config[DefaultKey];
      ghost var loaded := current;
      var copied := serverId !in current;
      var missing := if copied then lists[DefaultKey] == Missing else serverId in fileKeyless;
      if copied {
        current := current[serverId := config[DefaultKey]];
      }
      current := current[serverId := GoodbyeUpdate(current[serverId], channel, text)];
      assert current == loaded[serverId := GoodbyeUpdate(base, channel, text)];
      file := Some(current);
      if copied && missing {
        fileKeyless := fileKeyless + {serverId};
      }
      config := config[serverId := current[serverId]];
      var id := if missing then Missing else if copied then lists[DefaultKey] else Created(created);
      Share(serverId, id);
    }

    /**
     * The list behind a record just put into memory: `id`, which is no list,
     * the next new list, or a list whose other holders have the record's roles.
     */
    method Share(serverId: string, id: ListId)
      requires DefaultKey in config && FileOk()
      requires config.Keys == lists.Keys + {serverId}
      requires forall k :: k in lists && lists[k].Created? ==> lists[k].n < created
      requires forall k :: k in lists && k != serverId && lists[k] == Missing ==> config[k].autoRoles == []
      requires ListsAgree(config - {serverId}, lists)
      requires id.Created? ==> id.n <= created
      requires id == Missing ==> config[serverId].autoRoles == []
      requires forall k :: k in lists && k != serverId && lists[k] == id ==> config[k].autoRoles == config[serverId].autoRoles
      modifies this
      ensures Valid() && config == old(config) && file == old(file) && fileKeyless == old(fileKeyless)
      ensures lists == old(lists)[serverId := id]
      ensures created == (if id == Created(old(created)) then old(created) + 1 else old(created))
    {
      ShareAgrees(config, lists, serverId, id);
      lists := lists[serverId := id];
      if id == Created(created) {
        created := created + 1;
      }
    }

    /**
     * The auto-role command, on the in-memory configuration: a server without
     * a record gets a deep copy of the default; the role is appended if absent
     * or removed if present, in place, so every record sharing the server's
     * list sees the change; a record without the key gets a new list when a
     * role is added; only a change saves the whole configuration.
     */
    method ConfigAutoroles(serverId: string, roleId: int, action: RoleAction) returns (reply: RoleReply)
      requires Valid()
      modifies this
      ensures Valid()
      ensures (config, lists, created) == AutorolesAfter(old(config), old(lists), old(created), serverId, roleId, action)
      ensures var base := Lookup(old(config), serverId, old(config)[DefaultKey]);
              var changed := UpdatedRoles(action, base.autoRoles, roleId) != base.autoRoles;
              && file == (if changed then Some(config) else old(file))
              && fileKeyless == (if changed then MissingKeys(lists) else old(fileKeyless))
              && reply == Reply(action, base.autoRoles, roleId)
    {
      if serverId !in config {
        DeepCopyDefault(serverId);
      }
      reply := ChangeRoles(serverId, roleId, action);
    }

    /**
     * The add or remove on a server that has a record: the list changes in
     * place exactly when the role's presence allows it, a record without the
     * key first gets the new list `get` returned, and only a change saves.
     */
    method ChangeRoles(serverId: string, roleId: int, action: RoleAction) returns (reply: RoleReply)
      requires Valid() && serverId in config
      modifies this
      ensures Valid()
      ensures (config, lists, created) == ChangedState(old(config), old(lists), old(created), serverId, roleId, action)
      ensures var rec := old(config)[serverId];
              var changed := UpdatedRoles(action, rec.autoRoles, roleId) != rec.autoRoles;
              && file == (if changed then Some(config) else old(file))
              && fileKeyless == (if changed then MissingKeys(lists) else old(fileKeyless))
              && reply == Reply(action, rec.autoRoles, roleId)
    {
      ghost var roles := config[serverId].autoRoles;
      if action == Add {
        assert AddRole(roles, roleId) != roles <==> roleId !in roles;
        reply := AddAutoRole(serverId, roleId);
      } else {
        assert RemoveRole(roles, roleId) != roles <==> roleId in roles;
        reply := RemoveAutoRole(serverId, roleId);
      }
    }

    /**
     * `copy.deepcopy(config["default"])`: a record like the default, with a
     * new list of its own, or with no list when the default has none.
     */
    method DeepCopyDefault(serverId: string)
      requires Valid() && serverId !in config
      modifies this
      ensures Valid() && file == old(file) && fileKeyless == old(fileKeyless)
      ensures (config, lists, created) == CopiedState(old(config), old(lists), old(created), serverId)
    {
      assert config - {serverId} == config;
      config := config[serverId := config[DefaultKey]];
      Share(serverId, if lists[DefaultKey] == Missing then Missing else Created(created));
    }

    /**
     * `append` when absent, in place, then save; a record without the key
     * first gets the new list `get` returned. Nothing when the role is already
     * configured.
     */
    method AddAutoRole(serverId: string, roleId: int) returns (reply: RoleReply)
      requires Valid() && serverId in config
      modifies this
      ensures Valid()
      ensures var rec := old(config)[serverId];
              var adopt := roleId !in rec.autoRoles && old(lists)[serverId] == Missing;
              && lists == (if adopt then old(lists)[serverId := Created(old(created))] else old(lists))
              && created == (if adopt then old(created) + 1 else old(created))
              && config == (if roleId in rec.autoRoles then old(config)
                            else WithListRoles(old(config), lists, lists[serverId], AddRole(rec.autoRoles, roleId)))
              && file == (if roleId in rec.autoRoles then old(file) else Some(config))
              && fileKeyless == (if roleId in rec.autoRoles then old(fileKeyless) else MissingKeys(lists))
              && reply == Reply(Add, rec.autoRoles, roleId)
    {
      var roles := config[serverId].autoRoles;
      if roleId !in roles {
        if lists[serverId] == Missing {
          assert config.Keys == lists.Keys + {serverId};
          Share(serverId, Created(created));
        }
        roles := roles + [roleId];
        WithListRolesAgree(config, lists, lists[serverId], roles);
        config := WithListRoles(config, lists, lists[serverId], roles);
        file := Some(config);
        fileKeyless := MissingKeys(lists);
        reply := RoleAdded;
      } else {
        reply := AlreadyConfigured;
      }
    }

    /** `remove` when present, in place, then save; nothing when the role is not configured. */
    method RemoveAutoRole(serverId: string, roleId: int) returns (reply: RoleReply)
      requires Valid() && serverId in config
      modifies this
      ensures Valid() && lists == old(lists) && created == old(created)
      ensures var rec := old(config)[serverId];
              && config == (if roleId in rec.autoRoles
                            then WithListRoles(old(config), lists, lists[serverId], RemoveRole(rec.autoRoles, roleId))
                            else old(config))
              && file == (if roleId in rec.autoRoles then Some(config) else old(file))
              && fileKeyless == (if roleId in rec.autoRoles then MissingKeys(lists) else old(fileKeyless))
              && reply == Reply(Remove, rec.autoRoles, roleId)
    {
      var roles := config[serverId].autoRoles;
      if roleId in roles {
        roles := RemoveRole(roles, roleId);
        WithListRolesAgree(config, lists, lists[serverId], roles);
        config := WithListRoles(config, lists, lists[serverId], roles);
        file := Some(config);
        fileKeyless := MissingKeys(lists);
        reply := RoleRemoved;
      } else {
        reply := NotConfigured;
      }
    }

  /** The settings view of a server, from its record or the default. */
    function ViewConfig(serverId: string): (v: View)
      reads this
      requires Valid()
      ensures var s := Resolve(config, serverId);
              && (v.welcomeChannel.Some? <==> ChannelConfigured(s.welcomeChannel))
              && (v.welcomeChannel.Some? ==> v.welcomeChannel == s.welcomeChannel)
              && v.mentionUser == s.mentionUser && v.autoRoles == s.autoRoles
    {
      var s := Resolve(config, serverId);
      View(if ChannelConfigured(s.welcomeChannel) then s.welcomeChannel else None, s.mentionUser, s.autoRoles)
    }

    /**
     * The backfill command: the role list comes from the reloaded file, with
     * the in-memory default as fallback, and the engine runs over the members.
     */
    method AutoRoleBackfill(serverId: string, members: seq<Member>, resolvable: set<int>, grant: Grant)
      returns (o: Outcome)
      requires Valid()
      ensures var roles := Lookup(LoadConfig(file), serverId, config[DefaultKey]).autoRoles;
              && (o.NothingConfigured? <==> roles == [])
              && (o.Completed? ==>
                    var humans := Humans(members);
                    var run := RunAfter(humans, |humans|, roles, resolvable, grant);
                    && o.roleCount == |roles| && o.attempts == run.attempts && o.edits == run.edits
                    && o.summary == Summary(CountWhere(run.attempts, true), CountWhere(run.attempts, false), roles))
    {
      var settings := Lookup(LoadConfig(file), serverId, config[DefaultKey]);
      o := RunBackfill(members, settings.autoRoles, resolvable, grant);
    }

    /**
     * A member joins: the welcome message, then the auto-role loop, from the
     * in-memory settings. A template that does not render for the member
     * (`renders`) or a send that fails (`sendOk`) raises out of the handler:
     * nothing is sent and no role is granted.
     */
    method OnMemberJoin(serverId: string, channels: set<int>, renders: string -> bool, sendOk: bool,
                        resolvable: set<int>, outcome: int -> GrantResult)
      returns (sent: Option<Outgoing>, run: Option<JoinRun>)
      requires Valid()
      ensures var m := WelcomeMessage(Resolve(config, serverId), channels);
              && sent == Sent(m, renders, sendOk)
              && (run.Some? <==> AnnouncedWithoutError(m, renders, sendOk))
              && (run.Some? ==> run.value == JoinSpec(Resolve(config, serverId).autoRoles, resolvable, outcome))
    {
      var settings := Lookup(config, serverId, config[DefaultKey]);
      var welcome := WelcomeMessage(settings, channels);
      if welcome.Some? && !(renders(welcome.value.template) && sendOk) {
        return None, None;
      }
      sent := welcome;
      var r := JoinRoles(settings.autoRoles, resolvable, outcome);
      run := Some(r);
    }

    /** A member leaves: the goodbye message from the in-memory settings, sent when it renders and the send succeeds. */
    method OnMemberRemove(serverId: string, channels: set<int>, renders: string -> bool, sendOk: bool)
      returns (sent: Option<Outgoing>)
      requires Valid()
      ensures sent == Sent(GoodbyeMessage(Resolve(config, serverId), channels), renders, sendOk)
      ensures sent.Some? ==>
                && renders(sent.value.template) && sendOk
                && sent.value.template == (var s := Resolve(config, serverId);
                                           if s.goodbyeMessage.Some? then s.goodbyeMessage.value else DefaultGoodbye)
    {
      var settings := Lookup(config, serverId, config[DefaultKey]);
      var goodbye := GoodbyeMessage(settings, channels);
      if goodbye.Some? && renders(goodbye.value.template) && sendOk {
        sent := goodbye;
      } else {
        sent := None;
      }
    }
  }

  /**
   * With no configuration file, the welcome command on a server and then an
   * auto-role add on that server: the new record holds the default's own
   * list, so the role lands in the default too, in memory and in the file,
   * and every server without a record now resolves to it.
   */
  method SharedDefaultListExample(serverId: string, channel: int, roleId: int, other: string) returns (b: Bot)
    requires serverId != DefaultKey && other != serverId && other != DefaultKey
    ensures b.Valid()
    ensures b.config[DefaultKey].autoRoles == [roleId]
    ensures b.file.Some? && b.file.value[DefaultKey].autoRoles == [roleId]
    ensures other !in b.config && Resolve(b.config, other).autoRoles == [roleId]
  {
    b := new Bot(None, {});
    b.ConfigWelcome(serverId, channel, None);
    assert b.lists[serverId] == b.lists[DefaultKey] && b.config[serverId].autoRoles == [];
    var reply := b.ConfigAutoroles(serverId, roleId, Add);
  }

  /**
   * A file whose default record has no "auto_roles" key, then the welcome
   * command on a server and an auto-role add there. The welcome merge writes
   * a new empty list into the copy, so the role reaches only that server and
   * every server without a record still resolves to no roles.
   */
  method KeylessDefaultWelcomeExample(serverId: string, channel: int, roleId: int, other: string)
    returns (b: Bot)
    requires serverId != DefaultKey && other != serverId && other != DefaultKey
    ensures b.Valid()
    ensures serverId in b.config && b.config[serverId].autoRoles == [roleId]
    ensures b.config[DefaultKey].autoRoles == []
    ensures b.file.Some? && b.file.value[DefaultKey].autoRoles == []
    ensures other !in b.config && Resolve(b.config, other).autoRoles == []
  {
    var file0 := map[DefaultKey := DefaultSettings()];
    b := new Bot(Some(file0), {DefaultKey});
    assert LoadConfig(Some(file0)) == file0;
    b.ConfigWelcome(serverId, channel, None);
    ghost var c, l, n := b.config, b.lists, b.created;
    var reply := b.ConfigAutoroles(serverId, roleId, Add);
    AutorolesFrame(c, l, n, serverId, roleId, Add);
  }

  /**
   * The same with the goodbye command: the copy has no "auto_roles" key
   * either, and the add gives it a new list of its own, so again the default
   * keeps no roles.
   */
  method KeylessDefaultGoodbyeExample(serverId: string, channel: int, roleId: int, other: string)
    returns (b: Bot)
    requires serverId != DefaultKey && other != serverId && other != DefaultKey
    ensures b.Valid()
    ensures serverId in b.config && b.config[serverId].autoRoles == [roleId]
    ensures b.config[DefaultKey].autoRoles == []
    ensures b.file.Some? && b.file.value[DefaultKey].autoRoles == []
    ensures other !in b.config && Resolve(b.config, other).autoRoles == []
  {
    var file0 := map[DefaultKey := DefaultSettings()];
    b := new Bot(Some(file0), {DefaultKey});
    assert LoadConfig(Some(file0)) == file0;
    b.ConfigGoodbye(serverId, channel, None);
    ghost var c, l, n := b.config, b.lists, b.created;
    var reply := b.ConfigAutoroles(serverId, roleId, Add);
    AutorolesFrame(c, l, n, serverId, roleId, Add);
  }
}
