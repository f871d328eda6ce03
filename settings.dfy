/**
 * Per-server settings: the record stored for each server, the store that maps
 * server ids to records, the store built when no configuration file exists,
 * the lookup with fallback that every reader uses, and the two record merges
 * performed by the welcome and goodbye configuration commands.
 */
module Settings {

  datatype Option<T> = None | Some(value: T)

  /**
   * One server's settings. A key that the stored record may lack is an Option
   * when readers distinguish "absent" from a value (channels and messages);
   * `mentionUser` and `autoRoles` hold, for an absent key, the value every
   * reader falls back to (true and the empty list). Whether the
   * "auto_roles" key is present also decides which records share a list
   * object; the bot's state tracks that separately.
   */
  datatype ServerSettings = ServerSettings(
    welcomeChannel: Option<int>,
    welcomeMessage: Option<string>,
    goodbyeChannel: Option<int>,
    goodbyeMessage: Option<string>,
    mentionUser: bool,
    autoRoles: seq<int>)

  /** The whole configuration: server id (as a string) to settings. */
  type Store = map<string, ServerSettings>

  const DefaultKey: string := "default"

  /** The template record written when no configuration file exists. */
  function DefaultSettings(): (d: ServerSettings)
    ensures d.welcomeChannel == None && d.mentionUser && d.autoRoles == []
    ensures d.welcomeMessage == None && d.goodbyeChannel == None && d.goodbyeMessage == None
  {
    ServerSettings(None, None, None, None, true, [])
  }

  /**
   * Loading the configuration: the file's content when it exists (`Some`),
   * otherwise a fresh store holding only the default template.
   */
  function LoadConfig(file: Option<Store>): (s: Store)
    ensures file.None? ==> s.Keys == {DefaultKey} && s[DefaultKey] == DefaultSettings()
    ensures file.Some? ==> s == file.value
  {
    match file
    case None => map[DefaultKey := DefaultSettings()]
    case Some(data) => data
  }

  /** `store.get(serverId, fallback)`: the server's own entry, else the fallback. */
  function Lookup(store: Store, serverId: string, fallback: ServerSettings): (r: ServerSettings)
    ensures serverId in store ==> r == store[serverId]
    ensures serverId !in store ==> r == fallback
  {
    if serverId in store then store[serverId] else fallback
  }

  /** Settings resolution against one store whose own default is the fallback. */
  function Resolve(store: Store, serverId: string): (r: ServerSettings)
    requires DefaultKey in store
    ensures r in store.Values
    ensures r == (if serverId in store then store[serverId] else store[DefaultKey])
  {
    Lookup(store, serverId, store[DefaultKey])
  }

  /** A channel setting is honoured only when present and truthy (non-zero). */
  predicate ChannelConfigured(channel: Option<int>) {
    channel.Some? && channel.value != 0
  }

  /**
   * The welcome command's `update`: sets the welcome channel and message and
   * writes back the record's own auto-role list.
   */
  function WelcomeUpdate(s: ServerSettings, channel: int, message: string): (r: ServerSettings)
    ensures r.welcomeChannel == Some(channel) && r.welcomeMessage == Some(message)
    ensures r.goodbyeChannel == s.goodbyeChannel && r.goodbyeMessage == s.goodbyeMessage
    ensures r.mentionUser == s.mentionUser && r.autoRoles == s.autoRoles
  {
    s.(welcomeChannel := Some(channel), welcomeMessage := Some(message), autoRoles := s.autoRoles)
  }

  /** The goodbye command's `update`: sets the goodbye channel and message only. */
  function GoodbyeUpdate(s: ServerSettings, channel: int, message: string): (r: ServerSettings)
    ensures r.goodbyeChannel == Some(channel) && r.goodbyeMessage == Some(message)
    ensures r.welcomeChannel == s.welcomeChannel && r.welcomeMessage == s.welcomeMessage
    ensures r.mentionUser == s.mentionUser && r.autoRoles == s.autoRoles
  {
    s.(goodbyeChannel := Some(channel), goodbyeMessage := Some(message))
  }

  /** With no configuration file, every server resolves to the default template. */
  lemma FreshStoreResolvesToDefault(serverId: string)
    ensures Resolve(LoadConfig(None), serverId) == DefaultSettings()
  {
  }

  /** Resolution never yields anything but a stored record, and a stored one wins. */
  lemma ResolvePrefersOwnEntry(store: Store, serverId: string, s: ServerSettings)
    requires DefaultKey in store
    ensures Resolve(store[serverId := s], serverId) == s
    ensures serverId != DefaultKey ==> Resolve(store[serverId := s], DefaultKey) == store[DefaultKey]
  {
  }

  /** The two merges touch disjoint keys: they commute, and each is idempotent. */
  lemma UpdatesCommute(s: ServerSettings, wc: int, wm: string, gc: int, gm: string)
    ensures WelcomeUpdate(GoodbyeUpdate(s, gc, gm), wc, wm) == GoodbyeUpdate(WelcomeUpdate(s, wc, wm), gc, gm)
    ensures WelcomeUpdate(WelcomeUpdate(s, wc, wm), wc, wm) == WelcomeUpdate(s, wc, wm)
    ensures GoodbyeUpdate(GoodbyeUpdate(s, gc, gm), gc, gm) == GoodbyeUpdate(s, gc, gm)
  {
  }
}
