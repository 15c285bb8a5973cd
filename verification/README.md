# PlayerVaults `/vault` command, modelled in Dafny

This project models the command handler of the PlayerVaults server add-on
(`VaultCommand`). The handler does four things:

- **`onCommand`** handles `/vault <number>`, `/vault <player> <number>` and
  `/vault <player> list`. It refuses everything while the vaults are locked,
  refuses the console, and refuses a player who already has a vault open. It
  checks the admin permission on the two-argument forms and validates the vault
  number. It asks the storage layer to open a vault. After a successful open it
  records the session in the shared in-vault registry.
- **The `list` form** reports the keys of a player's vault file. Each key has
  `vault` removed, the keys are joined with spaces, and the result is trimmed.
- **`getAvailableVaults`** finds the vault numbers a player may open. It reads
  the player's `playervaults.amount.<N>` permission nodes.
- **`onTabComplete`** offers those numbers whose text starts with what the player
  has typed, ignoring case.

The model is functional. `VaultCommand.OnCommand` is a pure function. It takes:

- a `Host` that holds the lock flag and the storage and server oracles;
- the sender;
- the arguments;
- the registry.

It returns the outcome: how the call ended, the message sent, the open that was
attempted, and the new registry. The Java library behaviour the handler depends
on is modelled explicitly:

- `Integer.parseInt`: optional sign, decimal digits, 32-bit range, Java's
  truncating division in its overflow guard.
- `String.valueOf(int)`.
- `String.replace(target, "")`.
- `String.trim`.
- `startsWith`, and `toLowerCase(Locale.ROOT)` on ASCII.

Modules:

- `Options` (`options.dfy`): `Option`, used for Java's `null` results and for
  `NumberFormatException`.
- `JavaText` (`javatext.dfy`): string operations, trim, join, ASCII lower-casing.
- `JavaInt` (`javaint.dfy`): `parseInt` two ways. `ParseInt` is declarative;
  `ParseIntAccumulating` is the library's negative-accumulation loop, proved equal
  to it. Also `valueOf` and the canonical decimal form.
- `Permissions` (`permissions.dfy`): the sender, permission nodes,
  `getAvailableVaults`.
- `TabCompletion` (`tabcompletion.dfy`): `onTabComplete`.
- `VaultCommand` (`vaultcommand.dfy`): `onCommand`, the `list` report, and runs
  of several commands.

### The one exception that can escape

The one-argument form calls `Integer.parseInt(args[0])` at line 62 outside any
`try`, and only after `openOwnVault` has already succeeded. If the storage layer
ever opened a vault for an argument that is not an int, the
`NumberFormatException` would escape the handler, and no registry entry would be
written for the session that was opened. The model follows the code:

- `OnCommand` has a `ThrewNumberFormat` completion for this path
  (`VaultCommand.OpenOwnNonNumber`).
- The assumption the code relies on is stated as `OwnOpenNeedsNumber`.
- Under that assumption, `VaultCommand.AlwaysHandled` proves the handler returns
  `true` on every path.

## Model

| member | source | states |
|---|---|---|
| `VaultCommand.OnCommand` | src/main/java/com/drtshock/playervaults/commands/VaultCommand.java:47-111 | the result is `true` on every path except the escaping parse after a successful own open; an open is attempted only by a player with no session while unlocked; the registry changes only by adding the sender after a successful open; no existing entry is replaced or removed |
| `VaultCommand.AlwaysHandled` | src/main/java/com/drtshock/playervaults/commands/VaultCommand.java:47-111 | if the storage layer opens own vaults only for int arguments, onCommand returns `true` whatever the input |
| `VaultCommand.LockedOnlyLocked` | src/main/java/com/drtshock/playervaults/commands/VaultCommand.java:48-51 | while locked, only the "locked" message is sent, nothing is opened, and the registry is unchanged, for any sender and arguments |
| `VaultCommand.ConsoleRejected` | src/main/java/com/drtshock/playervaults/commands/VaultCommand.java:106-108 | a non-player gets only "player only", nothing opened, registry unchanged |
| `VaultCommand.SecondSessionRefused` | src/main/java/com/drtshock/playervaults/commands/VaultCommand.java:54-57 | a player already in the registry gets no message and no open, and the registry is unchanged |
| `VaultCommand.WrongArityShowsHelp` | src/main/java/com/drtshock/playervaults/commands/VaultCommand.java:103-105 | any argument count other than 1 or 2 gives only "help", registry unchanged |
| `VaultCommand.OpenOwnVault` | src/main/java/com/drtshock/playervaults/commands/VaultCommand.java:60-64 | one argument: the own vault is asked for; on success the registry gains (sender id, parsed number) for the sender and nothing else changes; on failure nothing changes; no message either way |
| `VaultCommand.OpenOwnNonNumber` | src/main/java/com/drtshock/playervaults/commands/VaultCommand.java:61-62 | a successful own open of a non-int argument ends in NumberFormatException with the registry unchanged |
| `VaultCommand.NonAdminRejected` | src/main/java/com/drtshock/playervaults/commands/VaultCommand.java:66-69 | two arguments without the admin permission: "no perms", no open, registry unchanged |
| `VaultCommand.NonNumberRejected` | src/main/java/com/drtshock/playervaults/commands/VaultCommand.java:87-93 | two arguments, second neither "list" nor an int: "must be number", no open, registry unchanged |
| `VaultCommand.ListBranch` | src/main/java/com/drtshock/playervaults/commands/VaultCommand.java:71-85 | the list form never opens or changes the registry; "vault does not exist" exactly when the file is null, otherwise the keys without "vault", joined by single spaces and trimmed |
| `VaultCommand.OpenOtherVaultBranch` | src/main/java/com/drtshock/playervaults/commands/VaultCommand.java:95-101 | two arguments with an int: the target's vault is asked for; success adds (target id, number) under the sender and sends nothing; failure sends "no owner found" with the typed name and changes nothing |
| `VaultCommand.ListVaults` | src/main/java/com/drtshock/playervaults/commands/VaultCommand.java:77-82 | the builder loop (each key without "vault", then a space) followed by trim equals the stripped keys joined by single spaces, then trimmed |
| `VaultCommand.ListOfNumberedKeys` | src/main/java/com/drtshock/playervaults/commands/VaultCommand.java:77-82 | keys `vault<N>` are reported as exactly the numbers separated by one space |
| `VaultCommand.AtMostOneSession` | src/main/java/com/drtshock/playervaults/commands/VaultCommand.java:54-64 | over any sequence of commands a player gains a session at most once, never while holding one, and a held session keeps its owner and number |
| `JavaText.RemoveAll` | src/main/java/com/drtshock/playervaults/commands/VaultCommand.java:140 | `replace(target, "")` never lengthens the string and leaves a string without an occurrence unchanged |
| `JavaText.ContainsIsIndexOf` | src/main/java/com/drtshock/playervaults/commands/VaultCommand.java:140 | the string contains the target exactly when indexOf finds it |
| `JavaText.IndexOf` | src/main/java/com/drtshock/playervaults/commands/VaultCommand.java:140 | `indexOf` returns a position where the target occurs with no occurrence before it, or -1 when it occurs nowhere |
| `JavaText.RemoveAllAtIndexOf` | src/main/java/com/drtshock/playervaults/commands/VaultCommand.java:140 | replace keeps the text before the first occurrence indexOf finds, drops the occurrence, and treats the text after it alike |
| `JavaText.RemoveAllWithoutIndex` | src/main/java/com/drtshock/playervaults/commands/VaultCommand.java:140 | when indexOf finds nothing, replace returns the string unchanged |
| `JavaText.RemoveAllAtFirstOccurrence` | src/main/java/com/drtshock/playervaults/commands/VaultCommand.java:140 | an occurrence at i with none before it: the result is the text before i followed by replace applied to the text after the occurrence |
| `JavaText.RemoveAllLeading` | src/main/java/com/drtshock/playervaults/commands/VaultCommand.java:140 | a leading occurrence of the target is dropped and the rest is processed alike |
| `JavaText.RemoveAllWithoutFirstChar` | src/main/java/com/drtshock/playervaults/commands/VaultCommand.java:79 | a string that never holds the target's first character is returned unchanged |
| `JavaText.Trim` | src/main/java/com/drtshock/playervaults/commands/VaultCommand.java:82 | the trimmed text is no longer than the input and neither starts nor ends with a character up to U+0020 |
| `JavaText.TrimMeetsDefinition` | src/main/java/com/drtshock/playervaults/commands/VaultCommand.java:82 | trim returns a block of the input with only characters up to U+0020 outside it |
| `JavaText.TrimUnique` | src/main/java/com/drtshock/playervaults/commands/VaultCommand.java:82 | any block meeting that definition equals trim's result |
| `JavaText.TrimDropsTrailingSpace` | src/main/java/com/drtshock/playervaults/commands/VaultCommand.java:79-82 | the trailing space the builder leaves never survives trim |
| `JavaText.TrimOfTrimmed` | src/main/java/com/drtshock/playervaults/commands/VaultCommand.java:82 | a string without trimmable ends is its own trim |
| `JavaText.AppendEachIsJoinPlusSpace` | src/main/java/com/drtshock/playervaults/commands/VaultCommand.java:77-80 | the builder's text is the keys joined by single spaces plus one trailing space |
| `JavaText.JoinSpacesEnds` | src/main/java/com/drtshock/playervaults/commands/VaultCommand.java:77-82 | the joined text starts with the first part's first character and ends with the last part's last |
| `JavaText.LowerRoot` | src/main/java/com/drtshock/playervaults/commands/VaultCommand.java:128 | lower-casing keeps length, turns each capital A-Z into its own small letter (code point plus 32), leaves every other character alone, and leaves no capital |
| `JavaInt.ParseInt` | src/main/java/com/drtshock/playervaults/commands/VaultCommand.java:89 | a parsed value is a 32-bit int, the text ends in a digit, and a negative value comes from a leading '-' |
| `JavaInt.ParseIntAccumulating` | src/main/java/com/drtshock/playervaults/commands/VaultCommand.java:142 | the library's accumulate-negatively loop with its `multmin`/`limit` overflow guards gives exactly `ParseInt`, and never leaves the int range |
| `JavaInt.NonDigitRejected` | src/main/java/com/drtshock/playervaults/commands/VaultCommand.java:89-93 | any character other than a digit after the optional sign makes the parse fail |
| `JavaInt.OverflowRejected` | src/main/java/com/drtshock/playervaults/commands/VaultCommand.java:89-93 | once a prefix of the digits exceeds the int range for its sign, the parse fails |
| `JavaInt.TruncDiv` | src/main/java/com/drtshock/playervaults/commands/VaultCommand.java:142 | integer division rounds toward zero, as in Java |
| `JavaInt.NatToDecimal` | src/main/java/com/drtshock/playervaults/commands/VaultCommand.java:143 | the digits have no leading zero and are worth the number |
| `JavaInt.ToDecimal` | src/main/java/com/drtshock/playervaults/commands/VaultCommand.java:143 | `String.valueOf(int)` is in canonical form: optional '-', no '+', no leading zero, no "-0" |
| `JavaInt.ParseToDecimal` | src/main/java/com/drtshock/playervaults/commands/VaultCommand.java:142-143 | parsing what valueOf prints gives back the int |
| `JavaInt.ToDecimalOfParse` | src/main/java/com/drtshock/playervaults/commands/VaultCommand.java:142-143 | printing a parsed string gives it back exactly when it is canonical |
| `JavaInt.NatToDecimalOfValue` | src/main/java/com/drtshock/playervaults/commands/VaultCommand.java:143 | a digit run with no leading zero is what valueOf prints for its value |
| `Permissions.GrantedNumberOfSuffix` | src/main/java/com/drtshock/playervaults/commands/VaultCommand.java:139-142 | after the prefix, text holding no 'p' is parsed as it stands |
| `Permissions.ParsePlusZero` | src/main/java/com/drtshock/playervaults/commands/VaultCommand.java:142 | a number written with '+' and a leading zero parses to that number |
| `Permissions.GrantedNumber` | src/main/java/com/drtshock/playervaults/commands/VaultCommand.java:139-142 | only a node starting with `playervaults.amount.` grants a number, and the number is a 32-bit int |
| `Permissions.EntryOf` | src/main/java/com/drtshock/playervaults/commands/VaultCommand.java:139-145 | one permission adds one entry exactly when it grants a number, otherwise none |
| `Permissions.AvailableVaults` | src/main/java/com/drtshock/playervaults/commands/VaultCommand.java:135-149 | the list is never longer than the permissions and every entry is in canonical decimal form |
| `Permissions.GetAvailableVaults` | src/main/java/com/drtshock/playervaults/commands/VaultCommand.java:135-149 | the loop over the effective permissions builds exactly `AvailableVaults`, in iteration order |
| `Permissions.AvailableVaultsCount` | src/main/java/com/drtshock/playervaults/commands/VaultCommand.java:137-147 | exactly one entry per granting permission |
| `Permissions.AvailableVaultsMembers` | src/main/java/com/drtshock/playervaults/commands/VaultCommand.java:137-147 | a string is listed if and only if some permission grants the number it prints |
| `Permissions.AvailableVaultsParse` | src/main/java/com/drtshock/playervaults/commands/VaultCommand.java:142-143 | every listed entry parses, and prints back to itself |
| `Permissions.GrantedNumberOfNode` | src/main/java/com/drtshock/playervaults/commands/VaultCommand.java:139-143 | the node `playervaults.amount.<N>` grants N |
| `Permissions.RepeatedPrefixIgnored` | src/main/java/com/drtshock/playervaults/commands/VaultCommand.java:140 | since every occurrence of the prefix is removed, a doubled prefix grants what a single one does |
| `Permissions.NonCanonicalNodeListedCanonically` | src/main/java/com/drtshock/playervaults/commands/VaultCommand.java:142-143 | a node written `+0<N>` grants N and is listed as plain `<N>` |
| `Permissions.LeadingZeroAddsNothing` | src/main/java/com/drtshock/playervaults/commands/VaultCommand.java:142 | a leading zero does not change a digit run's value |
| `TabCompletion.FilterByPrefix` | src/main/java/com/drtshock/playervaults/commands/VaultCommand.java:127-129 | the result is an order-preserving subsequence of the candidates; every kept element matches case-insensitively; every matching candidate is kept, as often as it occurs |
| `TabCompletion.TabComplete` | src/main/java/com/drtshock/playervaults/commands/VaultCommand.java:124-133 | empty unless a player typed exactly one argument; otherwise a subsequence of the available vaults containing exactly the ones that start with the argument, ignoring case, each as often as it is available |
| `TabCompletion.CandidatesHaveNoCase` | src/main/java/com/drtshock/playervaults/commands/VaultCommand.java:128 | lower-casing never changes a candidate, since valueOf prints only digits and '-' |
| `TabCompletion.EmptyPrefixKeepsAll` | src/main/java/com/drtshock/playervaults/commands/VaultCommand.java:128 | the empty prefix keeps every candidate in order |
| `JavaText.LowerRootIdempotent` | src/main/java/com/drtshock/playervaults/commands/VaultCommand.java:128 | lower-casing text that is already lower-cased changes nothing |
| `JavaText.StartsWithIgnoresTypedCase` | src/main/java/com/drtshock/playervaults/commands/VaultCommand.java:128 | lower-casing the typed text first never changes whether a candidate matches |
| `TabCompletion.FilterIgnoresTypedCase` | src/main/java/com/drtshock/playervaults/commands/VaultCommand.java:127-129 | the filter keeps the same candidates whether the typed text is in upper or lower case |
| `TabCompletion.TabCompleteIgnoresTypedCase` | src/main/java/com/drtshock/playervaults/commands/VaultCommand.java:124-133 | the suggestions for a typed argument and for its lower-cased form are the same |
| `TabCompletion.TabCompleteNothingTyped` | src/main/java/com/drtshock/playervaults/commands/VaultCommand.java:126-129 | with an empty argument a player is offered all available vaults, in order |

## Left out

- Server objects and calls. The sender is modelled as `Console` or `Player`. A
  `Player` carries:
  - its unique id;
  - the answer to `hasPermission` for the admin node;
  - the names of its effective permission attachments, in iteration order.

  `getTarget` (lines 113-121) is the oracle `Host.targetOf`. The online/offline
  lookup behind it is not part of this model.
- Permission values. `getEffectivePermissions` also lists attachments whose
  value is `false`. The code never reads that value, so the model keeps only
  the names.
- Storage. `isLocked`, `openOwnVault`, `openOtherVault` and
  `getPlayerVaultFile` are oracles in `Host`, and their answers are taken as
  given for the command being handled. Nothing is assumed about when they
  succeed, apart from the `OwnOpenNeedsNumber` assumption named where it is
  used. The vaults those calls open are not modelled. The constant `true`
  passed to `openOwnVault` (line 61) and the constant `false` passed to
  `getPlayerVaultFile` (line 73) are not modelled either.
- Sessions ending. Closing a vault removes the registry entry elsewhere in the
  add-on. That code is not part of this model, so `VaultCommand.Run` only ever
  adds entries.
- Message rendering. Translation, titles and placeholder substitution are
  reduced to a `Message` kind, plus the player name and the list text.
- YAML. The top-level keys of the vault file (`getKeys(false)`) are given as a
  sequence in iteration order.
- Concurrency. The registry is shared, but the host dispatches commands on one
  thread. The model handles one command at a time.
- `JavaInt.ParseInt` accepts only ASCII digits. Java's `Character.digit` also
  accepts other Unicode decimal digits, so `Integer.parseInt("٣")`
  (ARABIC-INDIC DIGIT THREE) returns 3. The parse is applied to typed arguments
  (lines 62 and 89) and to permission nodes (line 142), so the model differs from
  Java on such input:
  - `/vault <player> ٣`: Java parses the number as 3, asks the storage layer
    to open the other player's vault "٣", and records vault 3 if that
    succeeds. The model sends "must be number" and asks for nothing.
  - `/vault ٣`: if the storage layer opens the player's own vault "٣", Java
    records vault 3 at line 62. The model ends in `ThrewNumberFormat` instead,
    and `OwnOpenNeedsNumber` counts that open as a violation.
  - A node `playervaults.amount.٣` grants vault 3 in Java and nothing in the
    model.
- `JavaText.LowerRoot` lower-cases only ASCII letters, whereas
  `toLowerCase(Locale.ROOT)` does full Unicode case mapping. Candidates are
  digit strings (`TabCompletion.CandidatesHaveNoCase`), so only the typed text
  is affected.
- `JavaText.RemoveAll` models `String.replace` only with the empty replacement,
  the only form the handler uses.
