/** app/Http/Controllers/TelegramController.php: the `/start setup_<id>`
    deep-link command that links a Telegram chat to a user, the setup link
    that produces it, and the disconnect action. The users table is a class
    whose rows the webhook and disconnect rewrite in place. */
module Telegram {
  import opened Wrappers
  import opened Text
  import opened TaskModel
  import opened Users

  const StartCommand := "/start"
  const SetupPrefix := "setup_"

  const ConnectedMessage := "\U{2705} Successfully connected to BLACKTASK!\n\nYou'll now receive task reminders here."
  const WelcomeMessage := "\U{1F44B} Welcome to BLACKTASK!\n\nUse /start setup_{your_user_id} to connect your account."

  /** What the message text asks for: nothing (it does not start with
      "/start"), or a start command that may name a user key. */
  datatype Command = NotStart | Start(target: Option<UserId>)

  /** The text must start with "/start" and explode on spaces into exactly
      two words, the second starting with "setup_"; every "setup_" is then
      deleted from that word and what is left must be the decimal key. */
  function ParseCommand(text: string): Command {
    if !StartsWith(text, StartCommand) then NotStart
    else
      var parts := Split(text, ' ');
      if |parts| == 2 && StartsWith(parts[1], SetupPrefix) then Start(ParseNat(RemoveAll(parts[1], SetupPrefix)))
      else Start(None)
  }

  /** The parameter of the deep link for user `id`. */
  function StartParameter(id: UserId): string {
    SetupPrefix + NatToString(id)
  }

  lemma SetupPrefixGone(digits: string)
    requires AllDigits(digits)
    ensures RemoveAll(SetupPrefix + digits, SetupPrefix) == RemoveAll(digits, SetupPrefix)
  {
    var s := SetupPrefix + digits;
    assert s[..|SetupPrefix|] == SetupPrefix;
    assert s[|SetupPrefix|..] == digits;
  }

  /** A word with no space explodes to itself. */
  lemma NoSpace(word: string)
    requires ' ' !in word
    ensures Split(word, ' ') == [word]
  {
    SplitSingle(word, ' ');
  }

  /** A command word, a space and a word: two parts, the two words. */
  lemma TwoWords(command: string, word: string)
    requires ' ' !in command
    requires ' ' !in word
    ensures Split(command + " " + word, ' ') == [command, word]
  {
    assert command + " " + word == command + [' '] + word;
    SplitAppend(command, ' ', word);
    NoSpace(command);
    NoSpace(word);
  }

  /** "/start " followed by a word: two parts, the command and the word. */
  lemma StartWithWord(word: string)
    requires ' ' !in word
    ensures StartsWith(StartCommand + " " + word, StartCommand)
    ensures Split(StartCommand + " " + word, ' ') == [StartCommand, word]
  {
    var text := StartCommand + " " + word;
    assert text[..|StartCommand|] == StartCommand;
    TwoWords(StartCommand, word);
  }

  lemma ParameterHasNoSpace(id: UserId)
    ensures ' ' !in StartParameter(id)
    ensures ' ' !in SetupPrefix + StartParameter(id)
  {
  }

  /** The command Telegram sends for the deep link of user `id` names `id`. */
  lemma StartRoundTrip(id: UserId)
    ensures ParseCommand(StartCommand + " " + StartParameter(id)) == Start(Some(id))
  {
    var digits := NatToString(id);
    var word := StartParameter(id);
    ParameterHasNoSpace(id);
    StartWithWord(word);
    assert word[..|SetupPrefix|] == SetupPrefix;
    SetupPrefixGone(digits);
    DigitsAvoid(digits, SetupPrefix);
    RemoveAllAbsent(digits, SetupPrefix);
    ParseNatToString(id);
  }

  /** str_replace deletes every "setup_", so a doubled prefix names the same user. */
  lemma DoubledPrefix(id: UserId)
    ensures ParseCommand(StartCommand + " " + SetupPrefix + StartParameter(id)) == Start(Some(id))
  {
    var digits := NatToString(id);
    var word := SetupPrefix + StartParameter(id);
    assert StartCommand + " " + SetupPrefix + StartParameter(id) == StartCommand + " " + word;
    ParameterHasNoSpace(id);
    StartWithWord(word);
    assert word[..|SetupPrefix|] == SetupPrefix;
    assert word[|SetupPrefix|..] == StartParameter(id);
    SetupPrefixGone(digits);
    DigitsAvoid(digits, SetupPrefix);
    RemoveAllAbsent(digits, SetupPrefix);
    ParseNatToString(id);
  }

  /** A bare "/start" is a start command without a target. */
  lemma BareStart()
    ensures ParseCommand(StartCommand) == Start(None)
  {
    assert StartCommand[..|StartCommand|] == StartCommand;
    NoSpace(StartCommand);
  }

  /** Only the prefix is checked: "/started setup_<id>" links as well. */
  lemma LongerCommandWord(id: UserId)
    ensures ParseCommand("/started" + " " + StartParameter(id)) == Start(Some(id))
  {
    var word := StartParameter(id);
    var text := "/started" + " " + word;
    assert text[..|StartCommand|] == StartCommand;
    ParameterHasNoSpace(id);
    TwoWords("/started", word);
    assert word[..|SetupPrefix|] == SetupPrefix;
    SetupPrefixGone(NatToString(id));
    DigitsAvoid(NatToString(id), SetupPrefix);
    RemoveAllAbsent(NatToString(id), SetupPrefix);
    ParseNatToString(id);
  }

  // ---- setup --------------------------------------------------------------

  function DeepLinkBase(botUsername: string): string {
    "https://t.me/" + botUsername + "?start="
  }

  datatype SetupResponse = NotConfigured | SetupLink(botUsername: string, setupUrl: string)

  /** setup(): without a bot username (getMe failed or has none) the bot is
      not configured; otherwise the deep link whose start parameter, sent
      back as a start command, names the signed-in user. */
  function Setup(botUsername: Option<string>, user: UserId): (r: SetupResponse)
    ensures r.SetupLink? <==> botUsername.Some?
    ensures r.SetupLink? ==>
      && r.botUsername == botUsername.value
      && StartsWith(r.setupUrl, DeepLinkBase(r.botUsername))
      && ParseCommand(StartCommand + " " + r.setupUrl[|DeepLinkBase(r.botUsername)|..]) == Start(Some(user))
  {
    if botUsername.None? then NotConfigured
    else
      var base := DeepLinkBase(botUsername.value);
      var url := base + StartParameter(user);
      assert url[..|base|] == base && url[|base|..] == StartParameter(user);
      StartRoundTrip(user);
      SetupLink(botUsername.value, url)
  }

  // ---- the link on the user row -----------------------------------------------

  function Connect(u: User, chatId: string): User {
    u.(telegramChatId := Some(chatId), telegramNotifications := true)
  }

  function Disconnected(u: User): User {
    u.(telegramChatId := None, telegramNotifications := false)
  }

  /** Disconnecting twice is disconnecting once, and disconnecting undoes any
      earlier connect; nothing besides the two Telegram columns changes. */
  lemma DisconnectIdempotent(u: User, chatId: string)
    ensures Disconnected(Disconnected(u)) == Disconnected(u)
    ensures Disconnected(Connect(u, chatId)) == Disconnected(u)
    ensures Disconnected(u).(telegramChatId := u.telegramChatId, telegramNotifications := u.telegramNotifications) == u
  {
  }

  /** One incoming update: the message, if any, with its chat id and text. */
  datatype Message = Message(chatId: string, text: Option<string>)
  datatype Update = Update(message: Option<Message>)

  datatype Status = StatusOk | StatusConnected

  /** A reply sent to a chat. */
  datatype Outgoing = Outgoing(chatId: string, text: string)

  /** `$message['text'] ?? ''`. */
  function TextOf(m: Message): string {
    if m.text.Some? then m.text.value else ""
  }

  /** The user a message links, if it links one that exists. */
  predicate Links(users: map<UserId, User>, m: Message, id: UserId) {
    ParseCommand(TextOf(m)) == Start(Some(id)) && id in users
  }

  class UserDirectory {
    var users: map<UserId, User>

    predicate Valid()
      reads this
    {
      forall id :: id in users ==> users[id].id == id
    }

    constructor (rows: map<UserId, User>)
      requires forall id :: id in rows ==> rows[id].id == id
      ensures Valid() && users == rows
    {
      users := rows;
    }

    /** webhook(): a start command naming an existing user links the chat to
      that user and answers "connected"; any other start command gets the
      welcome text; everything else is acknowledged and ignored. */
    method Webhook(update: Update) returns (status: Status, reply: Option<Outgoing>)
      requires Valid()
      modifies this
      ensures Valid()
      ensures status == StatusConnected <==>
                update.message.Some? && ParseCommand(TextOf(update.message.value)).Start?
                && exists id :: Links(old(users), update.message.value, id)
      ensures status == StatusConnected ==>
                var m := update.message.value;
                var id := ParseCommand(TextOf(m)).target.value;
                && users == old(users)[id := Connect(old(users)[id], m.chatId)]
                && reply == Some(Outgoing(m.chatId, ConnectedMessage))
      ensures status == StatusOk ==> users == old(users)
      ensures status == StatusOk ==>
                reply == (if update.message.Some? && ParseCommand(TextOf(update.message.value)).Start?
                          then Some(Outgoing(update.message.value.chatId, WelcomeMessage)) else None)
    {
      status, reply := StatusOk, None;
      if update.message.Some? {
        var m := update.message.value;
        var command := ParseCommand(TextOf(m));
        if command.Start? {
          if command.target.Some? && command.target.value in users {
            var id := command.target.value;
            assert Links(users, m, id);
            users := users[id := Connect(users[id], m.chatId)];
            return StatusConnected, Some(Outgoing(m.chatId, ConnectedMessage));
          }
          reply := Some(Outgoing(m.chatId, WelcomeMessage));
        }
      }
    }

    /** disconnect(): clear the chat id and the Telegram flag of the signed-in user. */
    method Disconnect(id: UserId) returns (success: bool)
      requires Valid() && id in users
      modifies this
      ensures Valid()
      ensures users == old(users)[id := Disconnected(old(users)[id])]
      ensures success
    {
      users := users[id := Disconnected(users[id])];
      success := true;
    }
  }
}
