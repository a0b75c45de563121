# Slot-machine interaction protocol

A Dafny model of the slot-machine command of a casino chat bot. The
command hands a game across three asynchronous interactions:

1. **Slash command.** The bot asks the slot-machine controller for a new
   game owned by the user. It then replies privately with a START button.
   The button's custom id is `name:start:gameId:gameName`.
2. **Button click.** The handler splits the button's id on `:`. It reads
   the game id (index 2) and the game name (index 3). It replies with a
   bet modal whose id is `name:userId:gameId:gameName:label`. Here
   `userId` is the clicking user and `label` is the button's label.
3. **Modal submit.** The handler splits the modal's id. It reads the
   owner (index 1) and the game id (index 2). A submit by anyone other
   than the owner does nothing. For the owner, the player record is
   looked up. A bet that fails `checkBets` (legal means `0 < bet <= balance`)
   gets the private reply "bet is illegal". Otherwise `startGame` is called
   with the decoded game id and the bet.

The model has two modules:

- `Tokens` (`tokens.dfy`) is the id codec. `Join` joins fields with
  the `:` delimiter. `Split` cuts a string at every delimiter. `JavaSplit`
  models `String.split(":")` exactly. A string without a delimiter comes
  back whole, even when empty. Otherwise trailing empty pieces are dropped.
  The round-trip lemmas say when the fields come back, and which of them.
- `SlotMachineCommand` (`slot_machine_command.dfy`) holds the three
  handlers as pure functions. Each one maps the id it receives, the acting
  user and the bet to the ordered list of calls it makes on its
  collaborators (`Effect`). When an index past the end of a split id
  would raise an exception, or the cover image is missing, the result is
  `Threw` with the calls made before it. The modal's decision
  procedure is `DecideModal`, with outcomes `Malformed`, `Ignore`,
  `RejectIllegal` and `Start(gameId, bet)`.

The collaborators are parameters. The id `newGame` returned is an
argument to the slash handler. The balance `getPlayer` yields is a
function `balanceOf` from user id to balance. `startGame` is a recorded
`StartGame` effect.

Facts about the code that the model keeps:

- The button handler has no owner check. Whoever clicks START gets a
  modal naming them as owner. The START reply is ephemeral
  (`SlotMachineGameCommand.java` line 127),
  so in practice only the starter sees the button. `ButtonToModalHop`
  holds for an arbitrary clicker.
- Neither handler checks the field count. The code reads fields by
  index, so extra fields are accepted and field 0 (the command name) is
  never read. `ModalReadsOnlyOwnerAndGame` states this.
- This command has no ledger, session store or payout logic. It checks
  the bet and delegates to the controller.

## Model

| member | source | states |
|---|---|---|
| Tokens.Join | src/main/java/edu/northeastern/cs5500/starterbot/command/SlotMachineGameCommand.java:63-71 | Ids are fields joined in order. The first field is a prefix of the id, and with two or more fields a delimiter follows it |
| Tokens.Split | src/main/java/edu/northeastern/cs5500/starterbot/command/SlotMachineGameCommand.java:52-53 | Splitting on `:` gives at least one piece. No piece holds a delimiter, and joining the pieces gives back the original string |
| Tokens.DropTrailingEmpty | src/main/java/edu/northeastern/cs5500/starterbot/command/SlotMachineGameCommand.java:52-53 | `split` with no limit keeps a prefix of the pieces. The prefix ends in a non-empty piece, and every dropped piece was empty |
| Tokens.JavaSplit | src/main/java/edu/northeastern/cs5500/starterbot/command/SlotMachineGameCommand.java:84-85 | `split(":")` returns a delimiter-free string whole. Otherwise it returns a prefix of the raw pieces ending in a non-empty piece, with only empty pieces dropped |
| Tokens.SplitJoin | src/main/java/edu/northeastern/cs5500/starterbot/command/SlotMachineGameCommand.java:84-85 | Round trip: splitting the join of delimiter-free fields returns exactly those fields |
| Tokens.JavaSplitJoin | src/main/java/edu/northeastern/cs5500/starterbot/command/SlotMachineGameCommand.java:52-53 | Java-style split of a join returns the fields exactly, when they are delimiter-free and the last one is non-empty |
| Tokens.JavaSplitJoinPrefix | src/main/java/edu/northeastern/cs5500/starterbot/command/SlotMachineGameCommand.java:84-85 | Index k of the Java-style split of a join is in bounds and holds field k, whenever field k is non-empty; so do all indices before it |
| SlotMachineCommand.AsciiLower | src/main/java/edu/northeastern/cs5500/starterbot/command/SlotMachineGameCommand.java:105-107 | The command name (`CommandName`, i.e. `getName()`) is the game name in lower case. It has the same length, each upper-case ASCII letter becomes the same letter in lower case, and every other character is kept. So it has a delimiter exactly where the game name has one |
| SlotMachineCommand.StartButtonId | src/main/java/edu/northeastern/cs5500/starterbot/command/SlotMachineGameCommand.java:161 | The START button id is the join of command name, "start", game id and game name, in that order |
| SlotMachineCommand.ModalId | src/main/java/edu/northeastern/cs5500/starterbot/command/SlotMachineGameCommand.java:63-71 | The modal id is the join of command name, clicking user's id, game id, game name and button label, in that order |
| SlotMachineCommand.StartButtonIdFields | src/main/java/edu/northeastern/cs5500/starterbot/command/SlotMachineGameCommand.java:161 | Splitting the START button id gives exactly four pieces. The game id is at index 2 and the game name at index 3, for delimiter-free fields and a non-empty game name |
| SlotMachineCommand.ModalIdFields | src/main/java/edu/northeastern/cs5500/starterbot/command/SlotMachineGameCommand.java:63-71 | Splitting the modal id gives exactly its five fields in order, for delimiter-free fields and a non-empty label |
| SlotMachineCommand.ModalIdOwnerAndGame | src/main/java/edu/northeastern/cs5500/starterbot/command/SlotMachineGameCommand.java:84-85 | The modal id splits to at least three pieces: the user id at index 1 and the game id at index 2. This holds whatever the label and game name are, when the game id is non-empty |
| SlotMachineCommand.CheckBets | src/main/java/edu/northeastern/cs5500/starterbot/command/SlotMachineGameCommand.java:136-139 | A bet is legal iff it is positive and at most the balance. Staking a legal bet leaves a non-negative balance |
| SlotMachineCommand.OnSlashCommand | src/main/java/edu/northeastern/cs5500/starterbot/command/SlotMachineGameCommand.java:146-169 | `newGame` is called for the starter first and no game is started. If the cover image is missing, the handler throws after `newGame` and sends no button. Otherwise one START button is sent, and its id splits into the command name, "start", the new game id and the game name |
| SlotMachineCommand.OnButtonInteraction | src/main/java/edu/northeastern/cs5500/starterbot/command/SlotMachineGameCommand.java:48-76 | Throws, with no call made, exactly when the button id has fewer than four pieces. Otherwise it replies with one modal and starts no game. The modal id splits into command name, clicker, the button's game id and game name, and the label |
| SlotMachineCommand.DecideModal | src/main/java/edu/northeastern/cs5500/starterbot/command/SlotMachineGameCommand.java:83-97 | Malformed iff fewer than three pieces; ignored iff index 1 is not the submitter. A start happens iff the submitter owns the modal and the bet is legal. It starts the game at index 2 with the submitted bet |
| SlotMachineCommand.OnModalInteraction | src/main/java/edu/northeastern/cs5500/starterbot/command/SlotMachineGameCommand.java:83-97 | A non-owner gets no reply, no player lookup and no `startGame`. Any effect begins with the owner's player lookup. There is at most one `startGame`, with the decoded game id and the submitted legal bet. "bet is illegal" is sent iff the owner's bet is illegal |
| SlotMachineCommand.ButtonToModalHop | src/main/java/edu/northeastern/cs5500/starterbot/command/SlotMachineGameCommand.java:48-76 | The button-to-modal hop keeps fields 0, 2 and 3. Field 1 changes from "start" to the clicker's id, and the label is appended as field 5 |
| SlotMachineCommand.SlashToModal | src/main/java/edu/northeastern/cs5500/starterbot/command/SlotMachineGameCommand.java:48-97 | Across all three hops, a submit by anyone but the clicker does nothing. The owner either gets "bet is illegal", or starts exactly once the game the slash command created, with the submitted bet |
| SlotMachineCommand.ModalReadsOnlyOwnerAndGame | src/main/java/edu/northeastern/cs5500/starterbot/command/SlotMachineGameCommand.java:84-86 | A modal id of any arity from three up is acted on from fields 1 and 2 alone. Field 0 and any extra fields do not matter |
| SlotMachineCommand.EmptyTitleButtonThrows | src/main/java/edu/northeastern/cs5500/starterbot/command/SlotMachineGameCommand.java:53 | With an empty game name, `split` drops the empty last piece of the START id, so reading index 3 throws |

## Left out

- Dependency-injection wiring in `CommandModule.java`: it only registers handlers and has no behaviour to state.
- Embeds, colours and the cover image's content: presentation only, with no effect on the protocol.
- Loading the cover image: whether it is found is the parameter `coverImageFound`. If it is missing, the slash handler throws after `newGame`, so a game exists with no START button.
- The text-input and modal builder metadata, and `getCommandData`: also presentation only.
- The `queue()` plumbing of replies: it is platform I/O. A reply is recorded as an `Effect`.
- The bodies of `SlotMachineController.newGame`, `startGame` and `PlayerController.getPlayer`: they are not part of this model. The returned game id and the player's balance are parameters, and `startGame` is a recorded call.
- `Double.valueOf` and `double` semantics: bets and balances are `real`. So parse errors, NaN and infinities are not modelled. Under IEEE comparison a NaN bet would pass `checkBets`.
- `ObjectId` construction and validation: game ids are opaque strings. Converting one to an `ObjectId` and back is taken to return the same string, as it does for the lower-case hex ids `newGame` produces.
- SlotMachineCommand.AsciiLower: lowers ASCII letters only. Java's `toLowerCase` is locale-sensitive and also lowers non-ASCII letters.
- The game-name constant itself: its value is defined outside this command, so it is the parameter `title`.
- The routing of an interaction to this handler by command name: it happens outside this command.
- Concurrency, ledger locking, session stores and the game engines: none of them appears in this command.
