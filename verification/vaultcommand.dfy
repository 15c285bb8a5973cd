/** onCommand: the /vault command as a function from the state of the world
    (lock flag, who is already viewing a vault, what the storage layer answers)
    to the reply sent, the open attempted and the new in-vault registry. */
module VaultCommand {
  import opened Options
  import opened JavaText
  import opened JavaInt
  import opened Permissions

  /** What the registry records for a viewer: whose vault, and which number. */
  datatype ViewInfo = ViewInfo(owner: string, number: int)

  /** The in-vault registry, keyed by the viewer's unique id. */
  type Registry = map<string, ViewInfo>

  /** The storage layer and the server, as oracles.  Each answers for the
      moment the command runs. */
  datatype Host = Host(
    locked: bool,                                        // VaultOperations.isLocked()
    openOwnVault: (string, string) -> bool,              // (viewer id, vault argument)
    openOtherVault: (string, string, string) -> bool,    // (viewer id, owner id, vault argument)
    targetOf: string -> string,                          // getTarget: player name to unique id
    vaultKeys: string -> Option<seq<string>>)            // getPlayerVaultFile: null, or its top-level keys

  /** The messages the handler can send. */
  datatype Message =
    | Locked
    | PlayerOnly
    | Help
    | NoPerms
    | MustBeNumber
    | VaultDoesNotExist
    | ExistingVaults(player: string, vaults: string)
    | NoOwnerFound(player: string)

  /** Which open the handler asked the storage layer for, if any. */
  datatype OpenCall =
    | NoOpen
    | OpenOwn(viewer: string, vault: string)
    | OpenOther(viewer: string, owner: string, vault: string)

  /** How onCommand ends: it returns a boolean, or the NumberFormatException
      of the parse after a successful own-vault open escapes it. */
  datatype Completion = Returned(handled: bool) | ThrewNumberFormat

  datatype Outcome = Outcome(completion: Completion, message: Option<Message>, open: OpenCall, registry: Registry)

  /** The answer the storage layer gave to an open call. */
  predicate Succeeded(host: Host, call: OpenCall) {
    match call
    case NoOpen => false
    case OpenOwn(viewer, vault) => host.openOwnVault(viewer, vault)
    case OpenOther(viewer, owner, vault) => host.openOtherVault(viewer, owner, vault)
  }

  /** The assumption the one-argument form relies on: the storage layer opens
      one's own vault only for an argument that parses as an int. */
  ghost predicate OwnOpenNeedsNumber(host: Host) {
    forall viewer, vault :: host.openOwnVault(viewer, vault) ==> ParseInt(vault).Some?
  }

  /** The report of the "list" branch: each key with "vault" removed and a
      space appended, the whole trimmed.  That is the stripped keys joined by
      single spaces, then trimmed. */
  function ListVaults(keys: seq<string>): (r: string)
    ensures r == Trim(JoinSpaces(StripVaultWord(keys)))
  {
    var parts := StripVaultWord(keys);
    if |parts| == 0 then Trim(AppendEachWithSpace(parts))
    else
      AppendEachIsJoinPlusSpace(parts);
      TrimDropsTrailingSpace(JoinSpaces(parts));
      Trim(AppendEachWithSpace(parts))
  }

  /** Each key with every occurrence of "vault" removed. */
  function StripVaultWord(keys: seq<string>): seq<string> {
    seq(|keys|, k requires 0 <= k < |keys| => RemoveAll(keys[k], "vault"))
  }

  /** onCommand */
  function OnCommand(host: Host, sender: Sender, args: seq<string>, inVault: Registry): (o: Outcome)
    // it always reports the command handled, unless the line-62 parse throws
    ensures o.completion == Returned(true)
         || (|args| == 1 && ParseInt(args[0]).None? && Succeeded(host, o.open))
    // an open is asked for only by a player who has no session yet
    ensures o.open != NoOpen ==> !host.locked && sender.Player? && sender.id !in inVault
    // the registry changes only by adding the sender after a successful open
    ensures o.registry != inVault ==>
      && o.open != NoOpen
      && Succeeded(host, o.open)
      && sender.Player? && sender.id in o.registry
      && o.registry == inVault[sender.id := o.registry[sender.id]]
    // no existing session is ever replaced or closed
    ensures forall viewer :: viewer in inVault ==> viewer in o.registry && o.registry[viewer] == inVault[viewer]
  {
    if host.locked then Outcome(Returned(true), Some(Locked), NoOpen, inVault)
    else match sender
      case Console => Outcome(Returned(true), Some(PlayerOnly), NoOpen, inVault)
      case Player(id, isAdmin, _) =>
        if id in inVault then Outcome(Returned(true), None, NoOpen, inVault)
        else if |args| == 1 then
          var call := OpenOwn(id, args[0]);
          if !host.openOwnVault(id, args[0]) then Outcome(Returned(true), None, call, inVault)
          else match ParseInt(args[0])
            case None => Outcome(ThrewNumberFormat, None, call, inVault)
            case Some(n) => Outcome(Returned(true), None, call, inVault[id := ViewInfo(id, n)])
        else if |args| == 2 then
          if !isAdmin then Outcome(Returned(true), Some(NoPerms), NoOpen, inVault)
          else if args[1] == "list" then
            match host.vaultKeys(host.targetOf(args[0]))
            case None => Outcome(Returned(true), Some(VaultDoesNotExist), NoOpen, inVault)
            case Some(keys) => Outcome(Returned(true), Some(ExistingVaults(args[0], ListVaults(keys))), NoOpen, inVault)
          else match ParseInt(args[1])
            case None => Outcome(Returned(true), Some(MustBeNumber), NoOpen, inVault)
            case Some(n) =>
              var target := host.targetOf(args[0]);
              var call := OpenOther(id, target, args[1]);
              if host.openOtherVault(id, target, args[1]) then
                Outcome(Returned(true), None, call, inVault[id := ViewInfo(target, n)])
              else Outcome(Returned(true), Some(NoOwnerFound(args[0])), call, inVault)
        else Outcome(Returned(true), Some(Help), NoOpen, inVault)
  }

  /** Under the storage layer's promise, onCommand returns true on every path. */
  lemma AlwaysHandled(host: Host, sender: Sender, args: seq<string>, inVault: Registry)
    requires OwnOpenNeedsNumber(host)
    ensures OnCommand(host, sender, args, inVault).completion == Returned(true)
  {
  }

  /** While the vaults are locked, only the "locked" message goes out, whoever asks. */
  lemma LockedOnlyLocked(host: Host, sender: Sender, args: seq<string>, inVault: Registry)
    requires host.locked
    ensures OnCommand(host, sender, args, inVault) == Outcome(Returned(true), Some(Locked), NoOpen, inVault)
  {
  }

  /** The console is told the command is for players only. */
  lemma ConsoleRejected(host: Host, args: seq<string>, inVault: Registry)
    requires !host.locked
    ensures OnCommand(host, Console, args, inVault) == Outcome(Returned(true), Some(PlayerOnly), NoOpen, inVault)
  {
  }

  /** A player who already views a vault gets nothing: no message, no open, no change. */
  lemma SecondSessionRefused(host: Host, sender: Sender, args: seq<string>, inVault: Registry)
    requires !host.locked && sender.Player? && sender.id in inVault
    ensures OnCommand(host, sender, args, inVault) == Outcome(Returned(true), None, NoOpen, inVault)
  {
  }

  /** Any argument count other than one or two shows the help. */
  lemma WrongArityShowsHelp(host: Host, sender: Sender, args: seq<string>, inVault: Registry)
    requires !host.locked && sender.Player? && sender.id !in inVault
    requires |args| != 1 && |args| != 2
    ensures OnCommand(host, sender, args, inVault) == Outcome(Returned(true), Some(Help), NoOpen, inVault)
  {
  }

  /** One argument: the own vault is opened, and on success the registry maps
      the player to its own vault with the parsed number; nothing is sent. */
  lemma OpenOwnVault(host: Host, sender: Sender, vault: string, inVault: Registry)
    requires OwnOpenNeedsNumber(host)
    requires !host.locked && sender.Player? && sender.id !in inVault
    ensures var o := OnCommand(host, sender, [vault], inVault);
      && o.open == OpenOwn(sender.id, vault)
      && o.message == None
      && (host.openOwnVault(sender.id, vault) ==>
            o.registry == inVault[sender.id := ViewInfo(sender.id, ParseInt(vault).value)])
      && (!host.openOwnVault(sender.id, vault) ==> o.registry == inVault)
  {
  }

  /** Without the storage layer's promise, a successful open of a non-number
      escapes as an exception and leaves no registry entry behind. */
  lemma OpenOwnNonNumber(host: Host, sender: Sender, vault: string, inVault: Registry)
    requires !host.locked && sender.Player? && sender.id !in inVault
    requires host.openOwnVault(sender.id, vault) && ParseInt(vault).None?
    ensures OnCommand(host, sender, [vault], inVault)
         == Outcome(ThrewNumberFormat, None, OpenOwn(sender.id, vault), inVault)
  {
  }

  /** Two arguments without the admin permission: "no perms", nothing opened. */
  lemma NonAdminRejected(host: Host, sender: Sender, args: seq<string>, inVault: Registry)
    requires !host.locked && sender.Player? && sender.id !in inVault && !sender.isAdmin
    requires |args| == 2
    ensures OnCommand(host, sender, args, inVault) == Outcome(Returned(true), Some(NoPerms), NoOpen, inVault)
  {
  }

  /** Two arguments whose second is neither "list" nor an int: "must be number", nothing opened. */
  lemma NonNumberRejected(host: Host, sender: Sender, args: seq<string>, inVault: Registry)
    requires !host.locked && sender.Player? && sender.id !in inVault && sender.isAdmin
    requires |args| == 2 && args[1] != "list" && ParseInt(args[1]).None?
    ensures OnCommand(host, sender, args, inVault) == Outcome(Returned(true), Some(MustBeNumber), NoOpen, inVault)
  {
  }

  /** The "list" form never opens anything and never touches the registry; it
      reports a missing vault file, or the trimmed, space-joined keys with
      "vault" removed. */
  lemma ListBranch(host: Host, sender: Sender, player: string, inVault: Registry)
    requires !host.locked && sender.Player? && sender.id !in inVault && sender.isAdmin
    ensures var o := OnCommand(host, sender, [player, "list"], inVault);
      && o.completion == Returned(true)
      && o.open == NoOpen
      && o.registry == inVault
      && (host.vaultKeys(host.targetOf(player)).None? <==> o.message == Some(VaultDoesNotExist))
      && (host.vaultKeys(host.targetOf(player)).Some? ==>
            o.message == Some(ExistingVaults(player,
              Trim(JoinSpaces(StripVaultWord(host.vaultKeys(host.targetOf(player)).value))))))
  {
    var file := host.vaultKeys(host.targetOf(player));
    if file.Some? {
    }
  }

  /** Two arguments with a number: the other player's vault is opened; on
      success the registry maps the viewer to that owner and number, on
      failure "no owner found" is sent and the registry stays. */
  lemma OpenOtherVaultBranch(host: Host, sender: Sender, player: string, vault: string, inVault: Registry)
    requires !host.locked && sender.Player? && sender.id !in inVault && sender.isAdmin
    requires vault != "list" && ParseInt(vault).Some?
    ensures var o := OnCommand(host, sender, [player, vault], inVault);
      var owner := host.targetOf(player);
      && o.completion == Returned(true)
      && o.open == OpenOther(sender.id, owner, vault)
      && (host.openOtherVault(sender.id, owner, vault) ==>
            o.message == None && o.registry == inVault[sender.id := ViewInfo(owner, ParseInt(vault).value)])
      && (!host.openOtherVault(sender.id, owner, vault) ==>
            o.message == Some(NoOwnerFound(player)) && o.registry == inVault)
  {
  }

  /** Keys of the usual form vault<N> are listed as the numbers, separated by one space. */
  lemma ListOfNumberedKeys(keys: seq<string>, numbers: seq<nat>)
    requires |keys| == |numbers|
    requires forall k :: 0 <= k < |keys| ==> keys[k] == "vault" + ToDecimal(numbers[k])
    ensures ListVaults(keys) == JoinSpaces(seq(|numbers|, k requires 0 <= k < |numbers| => ToDecimal(numbers[k])))
  {
    var parts := StripVaultWord(keys);
    var printed := seq(|numbers|, k requires 0 <= k < |numbers| => ToDecimal(numbers[k]));
    forall k | 0 <= k < |keys|
      ensures parts[k] == printed[k]
    {
      var digits := ToDecimal(numbers[k]);
      assert forall i :: 0 <= i < |digits| ==> IsDigit(digits[i]);
      RemoveAllWithoutFirstChar(digits, "vault");
      RemoveAllLeading("vault", digits);
    }
    assert parts == printed;
    if |parts| > 0 {
      forall k | 0 <= k < |parts|
        ensures |parts[k]| > 0 && !IsTrimmable(parts[k][0]) && !IsTrimmable(parts[k][|parts[k]| - 1])
      {
        assert IsDigit(parts[k][|parts[k]| - 1]);
      }
      JoinSpacesEnds(parts);
    }
    TrimOfTrimmed(JoinSpaces(parts));
  }

  /** A sequence of commands, each meeting the world as it then is. */
  datatype Request = Request(host: Host, sender: Sender, args: seq<string>)

  /** The registry after handling the requests in order. */
  function Run(requests: seq<Request>, inVault: Registry): Registry
    decreases |requests|
  {
    if |requests| == 0 then inVault
    else
      var r := requests[0];
      Run(requests[1..], OnCommand(r.host, r.sender, r.args, inVault).registry)
  }

  /** How many of the requests gave `viewer` a new session. */
  function SessionsOpened(viewer: string, requests: seq<Request>, inVault: Registry): nat
    decreases |requests|
  {
    if |requests| == 0 then 0
    else
      var r := requests[0];
      var next := OnCommand(r.host, r.sender, r.args, inVault).registry;
      (if viewer !in inVault && viewer in next then 1 else 0) + SessionsOpened(viewer, requests[1..], next)
  }

  /** At most one open session per player: over any run of commands a player
      gains a session at most once, and never while already holding one; the
      session it holds keeps its owner and number. */
  lemma {:induction false} AtMostOneSession(viewer: string, requests: seq<Request>, inVault: Registry)
    ensures SessionsOpened(viewer, requests, inVault) <= (if viewer in inVault then 0 else 1)
    ensures viewer in inVault ==> viewer in Run(requests, inVault) && Run(requests, inVault)[viewer] == inVault[viewer]
    decreases |requests|
  {
    if |requests| > 0 {
      var r := requests[0];
      var next := OnCommand(r.host, r.sender, r.args, inVault).registry;
      AtMostOneSession(viewer, requests[1..], next);
    }
  }
}
