/** The slot-machine game command: three interaction handlers that hand a
    game from a slash command to a START button, from the button to a bet
    modal, and from the modal to the slot-machine controller.

    Each handler is a pure function from what the chat platform delivers
    (the custom id it issued earlier, the acting user, the submitted bet)
    to the ordered list of calls it makes on its collaborators, or to
    `Threw` when an index past the end of a split id raises an exception.
    The controllers' bodies are not part of this model: `newGame` is
    represented by the game id it returned, `getPlayer` by the player's
    balance, and `startGame` by a recorded call.
 */
module SlotMachineCommand {
  import opened Tokens

  /** Field 1 of the START button's id, in the place where the modal id
      later carries the user id. */
  const StartAction: string := "start"

  /** Ephemeral reply to an owner whose bet fails the legality check. */
  const IllegalBetReply: string := "bet is illegal"

  // ---------------------------------------------------------------------
  // The command name
  // ---------------------------------------------------------------------

  predicate IsAsciiUpper(c: char) {
    'A' <= c <= 'Z'
  }

  function LowerChar(c: char): (l: char) {
    if IsAsciiUpper(c) then (c as int + 32) as char else c
  }

  /** `toLowerCase`, restricted to the ASCII letters. It keeps the length,
      replaces every upper-case letter by the same letter in lower case,
      keeps every other character, and so neither adds nor removes a
      delimiter: a delimiter-free game name gives a delimiter-free
      command name. */
  function AsciiLower(s: string): (r: string)
    ensures |r| == |s|
    ensures forall i :: 0 <= i < |s| && !IsAsciiUpper(s[i]) ==> r[i] == s[i]
    ensures forall i :: 0 <= i < |s| && IsAsciiUpper(s[i]) ==>
              'a' <= r[i] <= 'z' && r[i] as int - 'a' as int == s[i] as int - 'A' as int
    ensures forall i :: 0 <= i < |r| ==> !IsAsciiUpper(r[i])
    ensures forall i :: 0 <= i < |r| ==> (r[i] == Delimiter <==> s[i] == Delimiter)
    ensures DelimiterFree(s) <==> DelimiterFree(r)
  {
    var r := seq(|s|, i requires 0 <= i < |s| => LowerChar(s[i]));
    assert forall i :: 0 <= i < |r| ==> (r[i] == Delimiter <==> s[i] == Delimiter);
    assert !DelimiterFree(s) ==> exists i :: 0 <= i < |s| && s[i] == Delimiter && r[i] == Delimiter;
    assert !DelimiterFree(r) ==> exists i :: 0 <= i < |r| && r[i] == Delimiter && s[i] == Delimiter;
    r
  }

  /** `getName()`: the game's display name in lower case. */
  function CommandName(title: string): (name: string) {
    AsciiLower(title)
  }

  // ---------------------------------------------------------------------
  // The two custom ids
  // ---------------------------------------------------------------------

  /** Custom id of the START button: command name, "start", game id, game name. */
  function StartButtonId(name: string, gameId: string, gameName: string): (id: string)
    ensures id == Join([name, StartAction, gameId, gameName])
  {
    var fs := [name, StartAction, gameId, gameName];
    var f2, f3 := [gameId, gameName], [gameName];
    assert f2[1..] == f3;
    assert fs[1..][1..] == f2;
    assert Join(f2) == gameId + [Delimiter] + gameName;
    assert Join(fs[1..]) == StartAction + [Delimiter] + Join(f2);
    name + [Delimiter] + StartAction + [Delimiter] + gameId + [Delimiter] + gameName
  }

  /** Custom id of the bet modal: command name, clicking user's id, game id,
      game name, button label. */
  function ModalId(name: string, userId: string, gameId: string, gameName: string, buttonLabel: string): (id: string)
    ensures id == Join([name, userId, gameId, gameName, buttonLabel])
  {
    var fs := [name, userId, gameId, gameName, buttonLabel];
    var f3, f4 := [gameName, buttonLabel], [buttonLabel];
    assert f3[1..] == f4;
    assert fs[1..][1..][1..] == f3;
    assert Join(f3) == gameName + [Delimiter] + buttonLabel;
    assert Join(fs[1..][1..]) == gameId + [Delimiter] + Join(f3);
    assert Join(fs[1..]) == userId + [Delimiter] + Join(fs[1..][1..]);
    name + [Delimiter] + userId + [Delimiter] + gameId + [Delimiter] + gameName + [Delimiter] + buttonLabel
  }

  /** Splitting the START button's id gives exactly its four fields back,
      the game id at index 2 and the game name at index 3, when no field
      holds a delimiter and the game name is not empty. */
  lemma StartButtonIdFields(name: string, gameId: string, gameName: string)
    requires DelimiterFree(name) && DelimiterFree(gameId) && DelimiterFree(gameName)
    requires gameName != ""
    ensures JavaSplit(StartButtonId(name, gameId, gameName)) == [name, StartAction, gameId, gameName]
  {
    JavaSplitJoin([name, StartAction, gameId, gameName]);
  }

  /** Splitting the modal's id gives exactly its five fields back when no
      field holds a delimiter and the label is not empty. */
  lemma ModalIdFields(name: string, userId: string, gameId: string, gameName: string, buttonLabel: string)
    requires DelimiterFree(name) && DelimiterFree(userId) && DelimiterFree(gameId)
    requires DelimiterFree(gameName) && DelimiterFree(buttonLabel)
    requires buttonLabel != ""
    ensures JavaSplit(ModalId(name, userId, gameId, gameName, buttonLabel)) == [name, userId, gameId, gameName, buttonLabel]
  {
    JavaSplitJoin([name, userId, gameId, gameName, buttonLabel]);
  }

  /** The two fields the modal handler reads come back intact, whatever the
      label and game name are, as long as the game id is not empty: the user
      id at index 1 and the game id at index 2. */
  lemma ModalIdOwnerAndGame(name: string, userId: string, gameId: string, gameName: string, buttonLabel: string)
    requires DelimiterFree(name) && DelimiterFree(userId) && DelimiterFree(gameId)
    requires DelimiterFree(gameName) && DelimiterFree(buttonLabel)
    requires gameId != ""
    ensures |JavaSplit(ModalId(name, userId, gameId, gameName, buttonLabel))| >= 3
    ensures JavaSplit(ModalId(name, userId, gameId, gameName, buttonLabel))[1] == userId
    ensures JavaSplit(ModalId(name, userId, gameId, gameName, buttonLabel))[2] == gameId
  {
    var fs := [name, userId, gameId, gameName, buttonLabel];
    JavaSplitJoinPrefix(fs, 2);
  }

  // ---------------------------------------------------------------------
  // Handlers
  // ---------------------------------------------------------------------

  /** A call the command makes on one of its collaborators. */
  datatype Effect =
    | NewGame(starter: string)                 // slotMachineController.newGame
    | ReplyStartMessage(buttonId: string)      // ephemeral reply carrying the START button
    | ReplyModal(modalId: string)              // event.replyModal
    | GetPlayer(userId: string)                // playerController.getPlayer
    | ReplyEphemeral(text: string)             // event.reply(...).setEphemeral(true)
    | StartGame(gameId: string, bet: real)     // slotMachineController.startGame

  /** How a handler ends: with an exception after making the calls in
      `effects`, or normally after making them. */
  datatype Handling = Threw(effects: seq<Effect>) | Ran(effects: seq<Effect>)

  /** The number of `startGame` calls in a list of effects. */
  function StartGameCalls(effects: seq<Effect>): (n: nat) {
    if |effects| == 0 then 0
    else (if effects[0].StartGame? then 1 else 0) + StartGameCalls(effects[1..])
  }

  /** `checkBets`: a bet is legal exactly when it is positive and no more
      than the balance, so after a legal bet is staked the balance is still
      non-negative; betting the whole balance is allowed, betting nothing is not. */
  function CheckBets(bet: real, balance: real): (ok: bool)
    ensures ok <==> 0.0 < bet && bet <= balance
    ensures ok ==> balance - bet >= 0.0
  {
    !(balance < bet || bet <= 0.0)
  }

  /** The slash command: ask the controller for a new game owned by the
      starter (which returns `gameId`), then reply privately with a START
      button whose id carries the command name, "start", the game id and
      the game name `title`. The cover image is loaded after the game is
      created; when it is missing (`coverImageFound` false) the handler
      throws, leaving a created game and no button. */
  function OnSlashCommand(title: string, starter: string, gameId: string, coverImageFound: bool): (h: Handling)
    ensures |h.effects| >= 1 && h.effects[0] == NewGame(starter)
    ensures StartGameCalls(h.effects) == 0
    ensures h.Threw? <==> !coverImageFound
    ensures h.Threw? ==> h.effects == [NewGame(starter)]
    ensures h.Ran? ==> |h.effects| == 2 && h.effects[1].ReplyStartMessage?
    ensures h.Ran? && DelimiterFree(title) && DelimiterFree(gameId) && title != "" ==>
              JavaSplit(h.effects[1].buttonId) == [CommandName(title), StartAction, gameId, title]
  {
    var effects := [NewGame(starter), ReplyStartMessage(StartButtonId(CommandName(title), gameId, title))];
    assert effects[1..][1..] == [];
    assert StartGameCalls(effects[1..]) == 0;
    assert [NewGame(starter)][1..] == [];
    if !coverImageFound then
      Threw([NewGame(starter)])
    else if DelimiterFree(title) && DelimiterFree(gameId) && title != "" then
      StartButtonIdFields(CommandName(title), gameId, title);
      Ran(effects)
    else
      Ran(effects)
  }

  /** A click on the START button: read the game id (index 2) and game name
      (index 3) of the button's id and reply with a bet modal whose id puts
      the clicking user's id where "start" was and appends the button's
      label. An id with fewer than four pieces raises an exception. There
      is no owner check at this hop. */
  function OnButtonInteraction(title: string, buttonId: string, clicker: string, buttonLabel: string): (h: Handling)
    ensures h.Threw? <==> |JavaSplit(buttonId)| < 4
    ensures h.Threw? ==> h.effects == []
    ensures h.Ran? ==> |h.effects| == 1 && h.effects[0].ReplyModal? && StartGameCalls(h.effects) == 0
    ensures h.Ran? && DelimiterFree(title) && DelimiterFree(clicker) && DelimiterFree(buttonLabel) && buttonLabel != "" ==>
              var parts := JavaSplit(buttonId);
              JavaSplit(h.effects[0].modalId) == [CommandName(title), clicker, parts[2], parts[3], buttonLabel]
  {
    var parts := JavaSplit(buttonId);
    if |parts| < 4 then Threw([])
    else
      var modalId := ModalId(CommandName(title), clicker, parts[2], parts[3], buttonLabel);
      if DelimiterFree(title) && DelimiterFree(clicker) && DelimiterFree(buttonLabel) && buttonLabel != "" then
        ModalIdFields(CommandName(title), clicker, parts[2], parts[3], buttonLabel);
        Ran([ReplyModal(modalId)])
      else
        Ran([ReplyModal(modalId)])
  }

  /** What the modal handler decides, before it talks to anyone. */
  datatype Decision =
    | Malformed                           // fewer than three pieces: index out of bounds
    | Ignore                              // submitted by someone other than the owner
    | RejectIllegal                       // owner, but the bet fails `checkBets`
    | Start(gameId: string, bet: real)    // owner with a legal bet

  /** The modal submit's decision procedure: the user id at index 1 of the
      modal's id must be the submitter, and the bet must be legal against
      the submitter's balance, before the game id at index 2 is started. */
  function DecideModal(modalId: string, submitter: string, bet: real, balanceOf: string -> real): (d: Decision)
    ensures d.Malformed? <==> |JavaSplit(modalId)| < 3
    ensures d.Ignore? <==> |JavaSplit(modalId)| >= 3 && JavaSplit(modalId)[1] != submitter
    ensures d.Start? <==>
              |JavaSplit(modalId)| >= 3 && JavaSplit(modalId)[1] == submitter && 0.0 < bet <= balanceOf(submitter)
    ensures d.Start? ==> d.gameId == JavaSplit(modalId)[2] && d.bet == bet && balanceOf(submitter) - bet >= 0.0
  {
    var parts := JavaSplit(modalId);
    if |parts| < 3 then Malformed
    else if parts[1] != submitter then Ignore
    else if !CheckBets(bet, balanceOf(submitter)) then RejectIllegal
    else Start(parts[2], bet)
  }

  /** A modal submit: nothing at all unless the submitter owns the modal;
      the owner's player record is looked up, then either the illegal-bet
      reply or exactly one `startGame` call with the decoded game id and
      the submitted bet. */
  function OnModalInteraction(modalId: string, submitter: string, bet: real, balanceOf: string -> real): (h: Handling)
    ensures h.Threw? <==> |JavaSplit(modalId)| < 3
    ensures h.Threw? ==> h.effects == []
    ensures |JavaSplit(modalId)| >= 3 && JavaSplit(modalId)[1] != submitter ==> h == Ran([])
    ensures h.Ran? && h.effects != [] ==> h.effects[0] == GetPlayer(submitter) && JavaSplit(modalId)[1] == submitter
    ensures h.Ran? ==> StartGameCalls(h.effects) <= 1
    ensures h.Ran? ==> (StartGameCalls(h.effects) == 1 <==> JavaSplit(modalId)[1] == submitter && 0.0 < bet <= balanceOf(submitter))
    ensures h.Ran? ==> forall e :: e in h.effects && e.StartGame? ==>
              e.gameId == JavaSplit(modalId)[2] && e.bet == bet && 0.0 < bet <= balanceOf(submitter)
    ensures h.Ran? ==> (ReplyEphemeral(IllegalBetReply) in h.effects <==>
              JavaSplit(modalId)[1] == submitter && !(0.0 < bet <= balanceOf(submitter)))
  {
    match DecideModal(modalId, submitter, bet, balanceOf)
    case Malformed => Threw([])
    case Ignore => Ran([])
    case RejectIllegal =>
      var effects := [GetPlayer(submitter), ReplyEphemeral(IllegalBetReply)];
      assert effects[1..][1..] == [];
      assert StartGameCalls(effects[1..]) == 0;
      Ran(effects)
    case Start(gameId, b) =>
      var effects := [GetPlayer(submitter), StartGame(gameId, b)];
      assert effects[1..][1..] == [];
      assert StartGameCalls(effects[1..]) == 1;
      Ran(effects)
  }

  // ---------------------------------------------------------------------
  // Properties across the hops
  // ---------------------------------------------------------------------

  /** The button-to-modal hop keeps the command name, the game id and the
      game name in place; only field 1 changes, from "start" to the
      clicking user's id, and the button's label is appended as field 5. */
  lemma ButtonToModalHop(title: string, gameId: string, clicker: string, buttonLabel: string)
    requires DelimiterFree(title) && DelimiterFree(gameId) && DelimiterFree(clicker) && DelimiterFree(buttonLabel)
    requires title != "" && buttonLabel != ""
    ensures var buttonId := StartButtonId(CommandName(title), gameId, title);
            var h := OnButtonInteraction(title, buttonId, clicker, buttonLabel);
            var before := JavaSplit(buttonId);
            && h == Ran([ReplyModal(ModalId(CommandName(title), clicker, gameId, title, buttonLabel))])
            && var after := JavaSplit(h.effects[0].modalId);
            && |before| == 4 && |after| == 5
            && before[1] == StartAction && after[1] == clicker
            && after[0] == before[0] && after[2] == before[2] && after[3] == before[3]
            && after[4] == buttonLabel
  {
    var name := CommandName(title);
    StartButtonIdFields(name, gameId, title);
    ModalIdFields(name, clicker, gameId, title, buttonLabel);
  }

  /** The whole protocol, from slash command to modal submit: the modal is
      owned by whoever clicked START; a submit by anyone else does nothing;
      the owner either gets the illegal-bet reply or starts, exactly once,
      the very game the slash command created, with the bet submitted. */
  lemma {:induction false} SlashToModal(title: string, starter: string, gameId: string, clicker: string,
                                        buttonLabel: string, submitter: string, bet: real, balanceOf: string -> real)
    requires DelimiterFree(title) && DelimiterFree(gameId) && DelimiterFree(clicker) && DelimiterFree(buttonLabel)
    requires title != "" && gameId != ""
    ensures var buttonId := OnSlashCommand(title, starter, gameId, true).effects[1].buttonId;
            var hop := OnButtonInteraction(title, buttonId, clicker, buttonLabel);
            && hop.Ran? && |hop.effects| == 1 && hop.effects[0].ReplyModal?
            && OnModalInteraction(hop.effects[0].modalId, submitter, bet, balanceOf)
               == if submitter != clicker then Ran([])
                  else if 0.0 < bet <= balanceOf(clicker) then Ran([GetPlayer(clicker), StartGame(gameId, bet)])
                  else Ran([GetPlayer(clicker), ReplyEphemeral(IllegalBetReply)])
  {
    var name := CommandName(title);
    StartButtonIdFields(name, gameId, title);
    ModalIdOwnerAndGame(name, clicker, gameId, title, buttonLabel);
  }

  /** The modal handler reads only fields 1 and 2: the command name in
      field 0 is never inspected, and a modal id with any number of fields
      from three upwards is acted on as long as the game id is not empty. */
  lemma ModalReadsOnlyOwnerAndGame(fields: seq<string>, submitter: string, bet: real, balanceOf: string -> real)
    requires AllDelimiterFree(fields)
    requires |fields| >= 3 && fields[2] != ""
    ensures fields[1] != submitter ==> OnModalInteraction(Join(fields), submitter, bet, balanceOf) == Ran([])
    ensures fields[1] == submitter && 0.0 < bet <= balanceOf(submitter) ==>
              OnModalInteraction(Join(fields), submitter, bet, balanceOf)
              == Ran([GetPlayer(submitter), StartGame(fields[2], bet)])
    ensures fields[1] == submitter && !(0.0 < bet <= balanceOf(submitter)) ==>
              OnModalInteraction(Join(fields), submitter, bet, balanceOf)
              == Ran([GetPlayer(submitter), ReplyEphemeral(IllegalBetReply)])
  {
    JavaSplitJoinPrefix(fields, 2);
  }

  /** An empty game name makes the START button unusable: `split` drops the
      empty last piece, so reading index 3 raises an exception. */
  lemma EmptyTitleButtonThrows(gameId: string, clicker: string, buttonLabel: string)
    requires DelimiterFree(gameId)
    ensures OnButtonInteraction("", StartButtonId(CommandName(""), gameId, ""), clicker, buttonLabel) == Threw([])
  {
    var fs := ["", StartAction, gameId, ""];
    JavaSplitJoinPrefix(fs, 1);
    JoinHasDelimiter(fs);
    SplitJoin(fs);
  }
}
