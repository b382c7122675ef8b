/**
 * The handler bodies of `AuthMePlayerListener`, each a pure function from the settings,
 * a snapshot of the event's fields and the answers of the uninterpreted collaborators to an
 * outcome record: whether the event is cancelled, which of its fields are overwritten,
 * and which calls the handler makes (a message sent, `performQuit`, `handlePlayerJoin`,
 * a teleport, a quit-location update, a scheduled inventory close).
 *
 * `ListenerService.shouldCancelEvent` is uninterpreted: a handler receives its answer
 * for the event (`restricted: bool`) or, where it asks about several players, the
 * predicate itself (`restricted: Player -> bool`).
 */
module AuthMePlayerListener {
  import opened Optional
  import opened Text
  import opened JoinPipeline

  /** The configuration properties the handlers read. */
  datatype Settings = Settings(
    useEssentialsMotd: bool,       // HooksSettings.USE_ESSENTIALS_MOTD
    allowCommands: seq<string>,    // RestrictionSettings.ALLOW_COMMANDS
    allowChat: bool,               // RestrictionSettings.ALLOW_CHAT
    hideChat: bool,                // RestrictionSettings.HIDE_CHAT
    allowUnauthedMovement: bool,   // RestrictionSettings.ALLOW_UNAUTHED_MOVEMENT
    allowedMovementRadius: int,    // RestrictionSettings.ALLOWED_MOVEMENT_RADIUS
    removeSpeed: bool,             // RestrictionSettings.REMOVE_SPEED
    noTeleport: bool,              // RestrictionSettings.NO_TELEPORT
    saveQuitLocation: bool,        // RestrictionSettings.SAVE_QUIT_LOCATION
    removeJoinMessage: bool,       // RegistrationSettings.REMOVE_JOIN_MESSAGE
    delayJoinMessage: bool,        // RegistrationSettings.DELAY_JOIN_MESSAGE
    removeLeaveMessage: bool)      // RegistrationSettings.REMOVE_LEAVE_MESSAGE

  /** The message keys the handlers send to a player. */
  datatype MessageKey = DeniedCommand | DeniedChat

  // ---------------------------------------------------------------------------
  // Commands
  // ---------------------------------------------------------------------------

  const MotdCommand: string := "/motd"

  /** `event.getMessage().split(" ")[0].toLowerCase()`; `None` where the index throws. */
  function CommandLabel(message: string): Option<string>
  {
    match FirstWord(message)
    case None => None
    case Some(w) => Some(ToLower(w))
  }

  /**
   * The label is the lower-cased text before the first space; it is missing only for
   * a non-empty message of spaces alone, where `split` returns an empty array.
   */
  lemma CommandLabelShape(message: string)
    ensures CommandLabel(message).None? <==> message != [] && AllSpaces(message)
    ensures CommandLabel(message).Some? ==>
      var cmd := CommandLabel(message).value;
      && |cmd| <= |message|
      && cmd == ToLower(message[..|cmd|])
      && SpaceFree(message[..|cmd|])
      && (|cmd| == |message| || message[|cmd|] == ' ')
  {
    FirstWordShape(message);
  }

  datatype CommandOutcome = CommandOutcome(cancelled: bool, sent: Option<MessageKey>, threw: bool)

  /**
   * A command is cancelled, with DENIED_COMMAND sent to the player, exactly when its
   * label is not in ALLOW_COMMANDS, it is not `/motd` while USE_ESSENTIALS_MOTD is on,
   * and the player is restricted; otherwise the event is left alone.
   */
  function OnPlayerCommandPreprocess(settings: Settings, message: string, restricted: bool): (r: CommandOutcome)
    ensures r.threw <==> CommandLabel(message).None?
    ensures r.threw ==> r == CommandOutcome(false, None, true)
    ensures r.cancelled <==> r.sent == Some(DeniedCommand)
    ensures r.sent.None? || r.sent == Some(DeniedCommand)
    ensures CommandLabel(message).Some? ==>
      var cmd := CommandLabel(message).value;
      (r.cancelled <==>
        && cmd !in settings.allowCommands
        && !(settings.useEssentialsMotd && cmd == MotdCommand)
        && restricted)
  {
    var untouched := CommandOutcome(false, None, false);
    match CommandLabel(message)
    case None => CommandOutcome(false, None, true)
    case Some(cmd) =>
      if settings.useEssentialsMotd && cmd == MotdCommand then untouched
      else if cmd in settings.allowCommands then untouched
      else if restricted then CommandOutcome(true, Some(DeniedCommand), false)
      else untouched
  }

  /**
   * A restricted player's command whose lower-case label is neither allowed nor the
   * Essentials `/motd` is refused, whatever arguments follow it; `/spawn` or `/SPAWN`
   * with only `/login` and `/register` allowed is one such command.
   */
  lemma UnlistedCommandRefused(settings: Settings, word: string, args: string)
    requires word != [] && SpaceFree(word)
    requires ToLower(word) !in settings.allowCommands && ToLower(word) != MotdCommand
    ensures OnPlayerCommandPreprocess(settings, word, true) == CommandOutcome(true, Some(DeniedCommand), false)
    ensures OnPlayerCommandPreprocess(settings, word + " " + args, true) == CommandOutcome(true, Some(DeniedCommand), false)
  {
    FirstWordOfWord(word, args);
  }

  /**
   * The label is lower-cased before the allow-list lookup, and whatever follows it is
   * ignored: a command whose first word lower-cases to an allowed command passes for
   * every player, `/LOGIN <password>` against an allowed `/login` among them.
   */
  lemma AllowedCommandPasses(settings: Settings, word: string, args: string, restricted: bool)
    requires word != [] && SpaceFree(word) && ToLower(word) in settings.allowCommands
    ensures OnPlayerCommandPreprocess(settings, word, restricted) == CommandOutcome(false, None, false)
    ensures OnPlayerCommandPreprocess(settings, word + " " + args, restricted) == CommandOutcome(false, None, false)
  {
    FirstWordOfWord(word, args);
  }

  // ---------------------------------------------------------------------------
  // Chat
  // ---------------------------------------------------------------------------

  datatype ChatOutcome = ChatOutcome(cancelled: bool, sent: Option<MessageKey>, recipients: set<Player>)

  /** The recipients left once every restricted one is removed. */
  function VisibleRecipients(recipients: set<Player>, restricted: Player -> bool): set<Player>
  {
    set p | p in recipients && !restricted(p)
  }

  /**
   * The iterator loop over the recipient set: each recipient is visited once and
   * removed when restricted. It leaves exactly the unrestricted recipients, which is
   * the set the chat handler installs.
   */
  method RemoveRestrictedRecipients(recipients: set<Player>, restricted: Player -> bool) returns (kept: set<Player>)
    ensures kept <= recipients
    ensures forall p :: p in kept <==> p in recipients && !restricted(p)
    ensures kept == VisibleRecipients(recipients, restricted)
  {
    kept := recipients;
    var unvisited := recipients;
    while unvisited != {}
      invariant unvisited <= recipients && kept <= recipients
      invariant forall p :: p in unvisited ==> p in kept
      invariant forall p :: p in recipients && p !in unvisited ==> (p in kept <==> !restricted(p))
      decreases |unvisited|
    {
      var p :| p in unvisited;
      if restricted(p) {
        kept := kept - {p};
      }
      unvisited := unvisited - {p};
    }
  }

  /**
   * With ALLOW_CHAT nothing changes. A restricted sender has the message cancelled with
   * DENIED_CHAT, recipients untouched. Otherwise, with HIDE_CHAT, the recipients become
   * exactly the unrestricted ones and the message is cancelled iff none is left.
   */
  function OnPlayerChat(settings: Settings, sender: Player, recipients: set<Player>, restricted: Player -> bool): (r: ChatOutcome)
    ensures settings.allowChat ==> r == ChatOutcome(false, None, recipients)
    ensures !settings.allowChat && restricted(sender) ==> r == ChatOutcome(true, Some(DeniedChat), recipients)
    ensures !settings.allowChat && !restricted(sender) && !settings.hideChat ==> r == ChatOutcome(false, None, recipients)
    ensures !settings.allowChat && !restricted(sender) && settings.hideChat ==>
      && r.sent.None?
      && (forall p :: p in r.recipients <==> p in recipients && !restricted(p))
      && (r.cancelled <==> forall p :: p in recipients ==> restricted(p))
  {
    if settings.allowChat then ChatOutcome(false, None, recipients)
    else if restricted(sender) then ChatOutcome(true, Some(DeniedChat), recipients)
    else if settings.hideChat then
      var visible := VisibleRecipients(recipients, restricted);
      assert forall p :: p in visible <==> p in recipients && !restricted(p);
      assert visible == {} <==> forall p :: p in recipients ==> restricted(p) by {
        if visible != {} {
          var q :| q in visible;
        }
      }
      ChatOutcome(visible == {}, None, visible)
    else ChatOutcome(false, None, recipients)
  }

  /** Hiding chat is idempotent: re-filtering an already filtered message removes no one. */
  lemma HideChatIdempotent(settings: Settings, sender: Player, recipients: set<Player>, restricted: Player -> bool)
    requires !settings.allowChat && settings.hideChat && !restricted(sender)
    ensures var once := OnPlayerChat(settings, sender, recipients, restricted);
            var twice := OnPlayerChat(settings, sender, once.recipients, restricted);
            twice.recipients == once.recipients && twice.cancelled == once.cancelled
  {
    var once := OnPlayerChat(settings, sender, recipients, restricted);
    var twice := OnPlayerChat(settings, sender, once.recipients, restricted);
    assert twice.recipients == once.recipients;
    assert once.cancelled <==> once.recipients == {} by {
      if once.recipients != {} {
        var q :| q in once.recipients;
      }
    }
  }

  // ---------------------------------------------------------------------------
  // Movement
  // ---------------------------------------------------------------------------

  type World = string

  /** A `Location`; its world may be null. Block coordinates are the floors of x and z. */
  datatype Location = Location(world: Option<World>, x: real, y: real, z: real)

  /** The destination after the handler, whether fly and walk speed were zeroed, and the teleport made. */
  datatype MoveOutcome = MoveOutcome(to: Location, speedZeroed: bool, teleport: Option<Location>)

  /** Same block column and no upward movement: the player is only falling or standing. */
  predicate FallingOrStationary(from: Location, to: Location)
  {
    from.x.Floor == to.x.Floor && from.z.Floor == to.z.Floor && from.y - to.y >= 0.0
  }

  /** Movement is left alone before any other test when it is allowed with no radius. */
  predicate MovementUnlimited(settings: Settings)
  {
    settings.allowUnauthedMovement && settings.allowedMovementRadius <= 0
  }

  /** The handler reaches its restriction branches: limited movement, a real move, a restricted player. */
  predicate MoveGated(settings: Settings, from: Location, to: Location, restricted: bool)
  {
    !MovementUnlimited(settings) && !FallingOrStationary(from, to) && restricted
  }

  /**
   * `distanceToSpawn` stands for `spawn.distance(player.getLocation())`.
   *
   * Nothing changes unless the move is gated. A gated move with unauthenticated movement
   * disallowed is reverted to `from` (speeds zeroed iff REMOVE_SPEED) and never
   * teleports. A teleport to the spawn happens exactly when movement is allowed,
   * NO_TELEPORT is off, the spawn and its world are known, and the player is in another
   * world or farther from the spawn than the radius.
   */
  function OnPlayerMove(settings: Settings, from: Location, to: Location, restricted: bool,
                        playerWorld: World, spawn: Option<Location>, distanceToSpawn: real): (r: MoveOutcome)
    ensures !MoveGated(settings, from, to, restricted) ==> r == MoveOutcome(to, false, None)
    ensures MoveGated(settings, from, to, restricted) && !settings.allowUnauthedMovement ==>
      r == MoveOutcome(from, settings.removeSpeed, None)
    ensures settings.allowUnauthedMovement ==> r.to == to && !r.speedZeroed
    ensures r.teleport.Some? <==>
      && MoveGated(settings, from, to, restricted)
      && settings.allowUnauthedMovement
      && !settings.noTeleport
      && spawn.Some? && spawn.value.world.Some?
      && (playerWorld != spawn.value.world.value || distanceToSpawn > settings.allowedMovementRadius as real)
    ensures r.teleport.Some? ==> r.teleport == spawn
  {
    var untouched := MoveOutcome(to, false, None);
    if MovementUnlimited(settings) then untouched
    else if FallingOrStationary(from, to) then untouched
    else if !restricted then untouched
    else if !settings.allowUnauthedMovement then MoveOutcome(from, settings.removeSpeed, None)
    else if settings.noTeleport then untouched
    else match spawn
      case None => untouched
      case Some(sp) =>
        if sp.world.None? then untouched
        else if playerWorld != sp.world.value then MoveOutcome(to, false, Some(sp))
        else if distanceToSpawn > settings.allowedMovementRadius as real then MoveOutcome(to, false, Some(sp))
        else untouched
  }

  /** Falling or standing still is never touched, whatever the player's authentication state. */
  lemma FallingIgnoresAuthState(settings: Settings, from: Location, to: Location,
                                playerWorld: World, spawn: Option<Location>, distanceToSpawn: real)
    requires from.x.Floor == to.x.Floor && from.z.Floor == to.z.Floor && to.y <= from.y
    ensures OnPlayerMove(settings, from, to, true, playerWorld, spawn, distanceToSpawn)
         == OnPlayerMove(settings, from, to, false, playerWorld, spawn, distanceToSpawn)
         == MoveOutcome(to, false, None)
  {
  }

  /**
   * In the spawn's own world the radius alone decides: a restricted player who really
   * moves is teleported to the spawn exactly when farther from it than the radius, and
   * the destination is never changed.
   */
  lemma SpawnRadiusDecidesTeleport(settings: Settings, from: Location, to: Location, sp: Location, distance: real)
    requires settings.allowUnauthedMovement && !settings.noTeleport && settings.allowedMovementRadius > 0
    requires !FallingOrStationary(from, to) && sp.world.Some?
    ensures var r := OnPlayerMove(settings, from, to, true, sp.world.value, Some(sp), distance);
            && r.to == to
            && r.teleport == (if distance > settings.allowedMovementRadius as real then Some(sp) else None)
  {
  }

  // ---------------------------------------------------------------------------
  // Join message
  // ---------------------------------------------------------------------------

  /** The event's join message afterwards, and the static `joinMessage` map afterwards. */
  datatype JoinMessageOutcome = JoinMessageOutcome(joinMessage: Option<string>, cache: map<string, string>)

  /**
   * REMOVE_JOIN_MESSAGE nulls the message and leaves the cache alone. With
   * DELAY_JOIN_MESSAGE and a message present, the message is nulled and stored under
   * the lower-cased name, replacing any earlier one; no other key changes. In every
   * other case neither the event nor the cache changes.
   */
  function OnJoinMessage(settings: Settings, player: Option<Player>, joinMessage: Option<string>,
                         cache: map<string, string>): (r: JoinMessageOutcome)
    ensures player.None? ==> r == JoinMessageOutcome(joinMessage, cache)
    ensures player.Some? && settings.removeJoinMessage ==> r == JoinMessageOutcome(None, cache)
    ensures player.Some? && !settings.removeJoinMessage && settings.delayJoinMessage && joinMessage.Some? ==>
      && r.joinMessage.None?
      && ToLower(player.value.name) in r.cache
      && r.cache[ToLower(player.value.name)] == joinMessage.value
      && r.cache.Keys == cache.Keys + {ToLower(player.value.name)}
      && forall k :: k in cache && k != ToLower(player.value.name) ==> r.cache[k] == cache[k]
    ensures player.Some? && !settings.removeJoinMessage && !(settings.delayJoinMessage && joinMessage.Some?) ==>
      r == JoinMessageOutcome(joinMessage, cache)
  {
    match player
    case None => JoinMessageOutcome(joinMessage, cache)
    case Some(p) =>
      if settings.removeJoinMessage then JoinMessageOutcome(None, cache)
      else if !settings.delayJoinMessage then JoinMessageOutcome(joinMessage, cache)
      else
        var name := ToLower(p.name);
        match joinMessage
        case None => JoinMessageOutcome(joinMessage, cache)
        case Some(msg) => JoinMessageOutcome(None, cache[name := msg])
  }

  /**
   * Names that differ only in letter case share one cache entry: the later join
   * overwrites the earlier one's delayed message.
   */
  lemma JoinMessageCaseFolded(settings: Settings, first: Player, second: Player,
                              m1: string, m2: string, cache: map<string, string>)
    requires !settings.removeJoinMessage && settings.delayJoinMessage
    requires ToLower(first.name) == ToLower(second.name)
    ensures var after := OnJoinMessage(settings, Some(second), Some(m2),
                           OnJoinMessage(settings, Some(first), Some(m1), cache).cache).cache;
            after == cache[ToLower(first.name) := m2]
  {
  }

  // ---------------------------------------------------------------------------
  // Pre-login and login
  // ---------------------------------------------------------------------------

  datatype PreLoginEvent = PreLoginEvent(name: string, result: LoginResult, kickMessage: KickMessage)

  datatype PreLoginOutcome = PreLoginOutcome(event: PreLoginEvent, ran: seq<CheckCall>)

  /**
   * `isAuthAvailable` is `dataSource.isAuthAvailable`, asked with the name as presented.
   * The three pre-login checks run in order up to the first failure; every check made
   * before the last passed; if the last one made failed, the result becomes KICK_OTHER
   * with that failure's message, and otherwise all three ran and the event is untouched.
   */
  function OnPreLogin(e: PreLoginEvent, isAuthAvailable: string -> bool, verifier: Verifier): (r: PreLoginOutcome)
    ensures var checks := PreLoginChecks(e.name, isAuthAvailable(e.name));
      && 1 <= |r.ran| <= |checks| && r.ran == checks[..|r.ran|]
      && AllPass(r.ran[..|r.ran| - 1], verifier)
      && (verifier(r.ran[|r.ran| - 1]).None? ==> r.ran == checks && r.event == e)
      && (verifier(r.ran[|r.ran| - 1]).Some? ==>
            r.event == e.(result := KickOther, kickMessage := Retrieved(verifier(r.ran[|r.ran| - 1]).value)))
  {
    var run := RunChecks(PreLoginChecks(e.name, isAuthAvailable(e.name)), verifier);
    match run.failure
    case None => PreLoginOutcome(e, run.ran)
    case Some(f) => PreLoginOutcome(e.(result := KickOther, kickMessage := Retrieved(f)), run.ran)
  }

  /**
   * What `onJoinVerifier.refusePlayerForFullServer(event)` answers, together with the
   * event's result and kick message after the call, which may have rewritten them.
   */
  datatype FullServerAnswer = FullServerAnswer(refused: bool, result: LoginResult, kickMessage: KickMessage)

  /** The event as the full-server check leaves it. */
  function AfterFullServer(e: LoginEvent, a: FullServerAnswer): LoginEvent
  {
    e.(result := a.result, kickMessage := a.kickMessage)
  }

  /**
   * The event afterwards, whether `refusePlayerForFullServer` was consulted, the checks
   * made, and whether `antiBot.handlePlayerJoin` was called.
   */
  datatype LoginOutcome = LoginOutcome(event: LoginEvent, consultedFullServer: bool,
                                       ran: seq<CheckCall>, handledJoin: bool)

  /**
   * The login handler stops before any check for an unrestricted player, a full-server
   * refusal, or a result that is not ALLOWED once the full-server check has run.
   */
  predicate LoginSkipped(unrestricted: bool, a: FullServerAnswer)
  {
    unrestricted || a.refused || a.result != Allowed
  }

  /**
   * `fullServer` stands for `refusePlayerForFullServer`, which receives the event;
   * `getAuth` is `dataSource.getAuth`, asked with the name as presented.
   *
   * An unrestricted player is left alone without consulting the full-server check. A
   * refusal, or a result other than ALLOWED after that check, runs no check and leaves
   * the event as the full-server check left it. Otherwise the six checks run in order up
   * to the first failure; a failure sets KICK_OTHER with its message and skips
   * `handlePlayerJoin`, which is called exactly when all six pass.
   */
  function OnPlayerLogin(e: LoginEvent, unrestricted: bool, fullServer: LoginEvent -> FullServerAnswer,
                         getAuth: string -> Option<PlayerAuth>, verifier: Verifier): (r: LoginOutcome)
    ensures r.consultedFullServer <==> !unrestricted
    ensures unrestricted ==> r == LoginOutcome(e, false, [], false)
    ensures !unrestricted && LoginSkipped(unrestricted, fullServer(e)) ==>
      r == LoginOutcome(AfterFullServer(e, fullServer(e)), true, [], false)
    ensures !LoginSkipped(unrestricted, fullServer(e)) ==>
      var after := AfterFullServer(e, fullServer(e));
      var checks := LoginChecks(after, getAuth(e.player.name));
      && after.result == Allowed
      && 1 <= |r.ran| <= |checks| && r.ran == checks[..|r.ran|]
      && AllPass(r.ran[..|r.ran| - 1], verifier)
      && (r.handledJoin <==> AllPass(checks, verifier))
      && (verifier(r.ran[|r.ran| - 1]).None? ==> r.ran == checks && r.event == after && r.handledJoin)
      && (verifier(r.ran[|r.ran| - 1]).Some? ==>
            r.event == after.(result := KickOther, kickMessage := Retrieved(verifier(r.ran[|r.ran| - 1]).value)))
  {
    if unrestricted then LoginOutcome(e, false, [], false)
    else
      var answer := fullServer(e);
      var after := AfterFullServer(e, answer);
      if answer.refused then LoginOutcome(after, true, [], false)
      else if after.result != Allowed then LoginOutcome(after, true, [], false)
      else
        var auth := getAuth(e.player.name);
        var run := RunChecks(LoginChecks(after, auth), verifier);
        match run.failure
        case Some(f) => LoginOutcome(after.(result := KickOther, kickMessage := Retrieved(f)), true, run.ran, false)
        case None => LoginOutcome(after, true, run.ran, true)
  }

  /**
   * A pre-login refusal is repeated by the login event with the same kick message, and
   * `handlePlayerJoin` is not called. This holds for a player who is not unrestricted
   * and whom the full-server check leaves ALLOWED, under two further hypotheses: the
   * account answer agrees between the two events, and the verifier answers the three
   * shared check calls alike at both events, which fails if, say, the anti-bot state
   * behind `checkAntibot` changed in between.
   */
  lemma PreLoginRefusalRepeatedAtLogin(pre: PreLoginEvent, e: LoginEvent, isAuthAvailable: string -> bool,
                                       fullServer: LoginEvent -> FullServerAnswer,
                                       getAuth: string -> Option<PlayerAuth>,
                                       preVerifier: Verifier, loginVerifier: Verifier)
    requires pre.name == e.player.name
    requires !fullServer(e).refused && fullServer(e).result == Allowed
    requires isAuthAvailable(pre.name) == getAuth(pre.name).Some?
    requires var shared := PreLoginChecks(pre.name, isAuthAvailable(pre.name));
             forall i :: 0 <= i < |shared| ==> preVerifier(shared[i]) == loginVerifier(shared[i])
    ensures var p := OnPreLogin(pre, isAuthAvailable, preVerifier);
            var r := OnPlayerLogin(e, false, fullServer, getAuth, loginVerifier);
            preVerifier(p.ran[|p.ran| - 1]).Some? ==>
              && p.event.result == KickOther
              && r.event.result == KickOther
              && r.event.kickMessage == p.event.kickMessage
              && r.ran == p.ran
              && !r.handledJoin
  {
    var shared := PreLoginChecks(pre.name, isAuthAvailable(pre.name));
    RunChecksAgree(shared, preVerifier, loginVerifier);
    PreLoginIsLoginPrefix(AfterFullServer(e, fullServer(e)), getAuth(e.player.name), loginVerifier);
  }

  // ---------------------------------------------------------------------------
  // Quit and kick
  // ---------------------------------------------------------------------------

  /** The event's quit message afterwards, and the `isKick` argument of `performQuit` if it was called. */
  datatype QuitOutcome = QuitOutcome(quitMessage: Option<string>, performQuit: Option<bool>)

  /**
   * `antibotKicked` is `antiBot.antibotKicked`, looked up with the name as presented.
   * The quit message is nulled iff REMOVE_LEAVE_MESSAGE; `performQuit(player, false)`
   * is called iff the name is not in the kicked list.
   */
  function OnPlayerQuit(settings: Settings, player: Player, quitMessage: Option<string>,
                        antibotKicked: set<string>): (r: QuitOutcome)
    ensures r.quitMessage.None? <==> settings.removeLeaveMessage || quitMessage.None?
    ensures r.quitMessage.Some? ==> r.quitMessage == quitMessage
    ensures r.performQuit.Some? <==> player.name !in antibotKicked
    ensures r.performQuit != Some(true)
  {
    var message := if settings.removeLeaveMessage then None else quitMessage;
    if player.name in antibotKicked then QuitOutcome(message, None)
    else QuitOutcome(message, Some(false))
  }

  /** `performQuit(player, true)` is called, with the kick flag set, iff the name is not in the kicked list. */
  function OnPlayerKick(player: Player, antibotKicked: set<string>): (performQuit: Option<bool>)
    ensures performQuit.Some? <==> player.name !in antibotKicked
    ensures performQuit != Some(false)
  {
    if player.name !in antibotKicked then Some(true) else None
  }

  /**
   * Quit and kick agree on whether the quit is processed and differ only in the kick
   * flag; the quit message does not depend on the anti-bot state.
   */
  lemma QuitAndKickAgree(settings: Settings, player: Player, quitMessage: Option<string>,
                         kicked: set<string>, otherKicked: set<string>)
    ensures OnPlayerQuit(settings, player, quitMessage, kicked).performQuit.Some?
        <==> OnPlayerKick(player, kicked).Some?
    ensures OnPlayerQuit(settings, player, quitMessage, kicked).quitMessage
         == OnPlayerQuit(settings, player, quitMessage, otherKicked).quitMessage
  {
  }

  /** The kicked list is consulted with the name as presented: "Bob" is not found under "bob". */
  lemma AntibotLookupIsCaseSensitive(settings: Settings)
    ensures OnPlayerQuit(settings, Player("Bob"), None, {"bob"}).performQuit == Some(false)
    ensures OnPlayerKick(Player("Bob"), {"bob"}) == Some(true)
  {
    assert "Bob" != "bob" by { assert "Bob"[0] != "bob"[0]; }
  }

  // ---------------------------------------------------------------------------
  // Simple cancel gates
  // ---------------------------------------------------------------------------

  /** A `HumanEntity`: a player or some other human-like entity. */
  datatype Human = PlayerHuman(player: Player) | OtherHuman

  /**
   * The events whose handler only cancels. The first nine ask `shouldCancelEvent(event)`;
   * the sign, inventory-open and inventory-click handlers ask about a player they
   * extract themselves.
   */
  datatype GateEvent =
    | PickupItem | Interact | ConsumeItem | HitPlayer | InteractEntity
    | DropItem | BedEnter | Shear | Fish
    | SignChange(signer: Player)
    | InventoryOpen(opener: Human)
    | InventoryClick(clicker: Option<Human>)

  /** Whether the event is cancelled, the delay in ticks of a scheduled `closeInventory`, and whether a cast threw. */
  datatype GateOutcome = GateOutcome(cancelled: bool, closeInventoryAfter: Option<nat>, threw: bool)

  /** The player a handler asks about, when it asks about a player at all. */
  function AskedPlayer(e: GateEvent): Option<Player>
  {
    match e
    case SignChange(p) => Some(p)
    case InventoryOpen(PlayerHuman(p)) => Some(p)
    case InventoryClick(Some(PlayerHuman(p))) => Some(p)
    case _ => None
  }

  predicate AsksAboutEvent(e: GateEvent)
  {
    !e.SignChange? && !e.InventoryOpen? && !e.InventoryClick?
  }

  /**
   * `eventRestricted` is `shouldCancelEvent(event)`, `restricted` is
   * `shouldCancelEvent(player)`. Every gate cancels exactly when the one predicate
   * answers true for its subject; the inventory-open gate alone also schedules
   * `closeInventory` one tick later; a click by no one or by a non-player is ignored,
   * and an inventory opened by a non-player fails the cast.
   */
  function OnGateEvent(e: GateEvent, eventRestricted: bool, restricted: Player -> bool): (r: GateOutcome)
    ensures AsksAboutEvent(e) ==> r == GateOutcome(eventRestricted, None, false)
    ensures !AsksAboutEvent(e) ==>
      (r.cancelled <==> AskedPlayer(e).Some? && restricted(AskedPlayer(e).value))
    ensures r.closeInventoryAfter.Some? <==> e.InventoryOpen? && r.cancelled
    ensures r.closeInventoryAfter.Some? ==> r.closeInventoryAfter.value == 1
    ensures r.threw <==> e == InventoryOpen(OtherHuman)
  {
    match e
    case SignChange(p) => GateOutcome(restricted(p), None, false)
    case InventoryOpen(h) =>
      (match h
       case OtherHuman => GateOutcome(false, None, true)
       case PlayerHuman(p) =>
         if !restricted(p) then GateOutcome(false, None, false)
         else GateOutcome(true, Some(1), false))
    case InventoryClick(c) =>
      (match c
       case None => GateOutcome(false, None, false)
       case Some(OtherHuman) => GateOutcome(false, None, false)
       case Some(PlayerHuman(p)) => GateOutcome(restricted(p), None, false))
    case PickupItem => GateOutcome(eventRestricted, None, false)
    case Interact => GateOutcome(eventRestricted, None, false)
    case ConsumeItem => GateOutcome(eventRestricted, None, false)
    case HitPlayer => GateOutcome(eventRestricted, None, false)
    case InteractEntity => GateOutcome(eventRestricted, None, false)
    case DropItem => GateOutcome(eventRestricted, None, false)
    case BedEnter => GateOutcome(eventRestricted, None, false)
    case Shear => GateOutcome(eventRestricted, None, false)
    case Fish => GateOutcome(eventRestricted, None, false)
  }

  /**
   * One predicate decides every gate. The sign, inventory-open and inventory-click gates
   * for a player cancel exactly when that player is restricted, whatever the event-level
   * answer; an event-asked gate whose answer is the same player's gives the same verdict.
   */
  lemma GatesShareOnePredicate(p: Player, restricted: Player -> bool, eventAnswer: bool)
    ensures AskedPlayer(SignChange(p)) == Some(p)
    ensures AskedPlayer(InventoryOpen(PlayerHuman(p))) == Some(p)
    ensures AskedPlayer(InventoryClick(Some(PlayerHuman(p)))) == Some(p)
    ensures forall e :: AskedPlayer(e) == Some(p) ==>
      OnGateEvent(e, eventAnswer, restricted).cancelled == restricted(p)
    ensures forall e :: AsksAboutEvent(e) ==>
      OnGateEvent(e, restricted(p), restricted).cancelled == restricted(p)
  {
    forall e | AskedPlayer(e) == Some(p)
      ensures OnGateEvent(e, eventAnswer, restricted).cancelled == restricted(p)
    {
      assert !AsksAboutEvent(e);
    }
  }

  // ---------------------------------------------------------------------------
  // Respawn
  // ---------------------------------------------------------------------------

  /** The record handed to `dataSource.updateQuitLoc`: lower-cased name, real name, spawn (possibly null). */
  datatype QuitLocationUpdate = QuitLocationUpdate(name: string, realName: string, location: Option<Location>)

  datatype RespawnOutcome = RespawnOutcome(respawnLocation: Location, quitLocationUpdate: Option<QuitLocationUpdate>)

  /**
   * `isAuthAvailable` is `dataSource.isAuthAvailable`, asked here with the lower-cased name.
   *
   * With NO_TELEPORT or an unrestricted player nothing happens. Otherwise the quit
   * location is updated to the spawn iff SAVE_QUIT_LOCATION and the account exists, and
   * the respawn location becomes the spawn iff the spawn and its world are known.
   */
  function OnPlayerRespawn(settings: Settings, player: Player, respawnLocation: Location, restricted: bool,
                           spawn: Option<Location>, isAuthAvailable: string -> bool): (r: RespawnOutcome)
    ensures settings.noTeleport || !restricted ==> r == RespawnOutcome(respawnLocation, None)
    ensures r.quitLocationUpdate.Some? <==>
      !settings.noTeleport && restricted && settings.saveQuitLocation && isAuthAvailable(ToLower(player.name))
    ensures r.quitLocationUpdate.Some? ==>
      r.quitLocationUpdate.value == QuitLocationUpdate(ToLower(player.name), player.name, spawn)
    ensures !settings.noTeleport && restricted && spawn.Some? && spawn.value.world.Some? ==>
      r.respawnLocation == spawn.value
    ensures !(spawn.Some? && spawn.value.world.Some?) ==> r.respawnLocation == respawnLocation
  {
    if settings.noTeleport then RespawnOutcome(respawnLocation, None)
    else if !restricted then RespawnOutcome(respawnLocation, None)
    else
      var name := ToLower(player.name);
      var update :=
        if settings.saveQuitLocation && isAuthAvailable(name)
        then Some(QuitLocationUpdate(name, player.name, spawn))
        else None;
      var location :=
        if spawn.Some? && spawn.value.world.Some? then spawn.value else respawnLocation;
      RespawnOutcome(location, update)
  }

  /**
   * Respawn and movement send a restricted player to the same place: with NO_TELEPORT
   * off and a spawn whose world is known, the respawn point is the spawn, any teleport
   * a move makes targets it, and a saved quit location records it.
   */
  lemma RespawnAgreesWithMoveTeleport(settings: Settings, player: Player, respawnLocation: Location,
                                      sp: Location, isAuthAvailable: string -> bool,
                                      from: Location, to: Location, playerWorld: World, distance: real)
    requires !settings.noTeleport && sp.world.Some?
    ensures var back := OnPlayerRespawn(settings, player, respawnLocation, true, Some(sp), isAuthAvailable);
            var move := OnPlayerMove(settings, from, to, true, playerWorld, Some(sp), distance);
            && back.respawnLocation == sp
            && (move.teleport.Some? ==> move.teleport.value == back.respawnLocation)
            && (back.quitLocationUpdate.Some? ==> back.quitLocationUpdate.value.location == Some(back.respawnLocation))
  {
  }
}
