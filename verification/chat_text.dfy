/**
 * `chat_to_str`: flattening a chat component tree (a text plus a list of
 * child components) into one string. The source appends into one buffer
 * while walking the tree; `Flatten` is the pre-order reading it must equal.
 */
module ChatText {

  /** The `text`/`extra` shape of the protocol's chat component. */
  datatype Chat = Chat(text: string, extra: seq<Chat>)

  /** The concatenation of a list of strings, in order. */
  function Concat(parts: seq<string>): string
  {
    if |parts| == 0 then "" else parts[0] + Concat(parts[1..])
  }

  /** Pre-order reading of a chat: its text, then each child's reading in order. */
  function Flatten(chat: Chat): string
    decreases chat, 1
  {
    chat.text + FlattenFrom(chat, 0)
  }

  /** The readings of the children of `chat` from the i-th on, concatenated. */
  function FlattenFrom(chat: Chat, i: nat): string
    requires i <= |chat.extra|
    decreases chat, 0, |chat.extra| - i
  {
    if i == |chat.extra| then "" else Flatten(chat.extra[i]) + FlattenFrom(chat, i + 1)
  }

  /** The inner `recurse`: appends the chat's text, then recurses into each child in order. */
  function Recurse(acc: string, chat: Chat): string
    decreases chat, 1
  {
    RecurseFrom(acc + chat.text, chat, 0)
  }

  /** The `for_each` over `chat.extra`, from the i-th child on. */
  function RecurseFrom(acc: string, chat: Chat, i: nat): string
    requires i <= |chat.extra|
    decreases chat, 0, |chat.extra| - i
  {
    if i == |chat.extra| then acc else RecurseFrom(Recurse(acc, chat.extra[i]), chat, i + 1)
  }

  /** `chat_to_str`: runs `recurse` on an empty buffer. */
  function ChatToStr(chat: Chat): (s: string)
    ensures s == Flatten(chat)
    ensures |chat.extra| == 0 ==> s == chat.text
    ensures s[..|chat.text|] == chat.text
  {
    RecurseAppends("", chat);
    Recurse("", chat)
  }

  /** The buffer-passing walk appends exactly the pre-order reading to what the buffer held. */
  lemma {:induction false} RecurseAppends(acc: string, chat: Chat)
    ensures Recurse(acc, chat) == acc + Flatten(chat)
    decreases chat, 1
  {
    RecurseFromAppends(acc + chat.text, chat, 0);
  }

  lemma {:induction false} RecurseFromAppends(acc: string, chat: Chat, i: nat)
    requires i <= |chat.extra|
    ensures RecurseFrom(acc, chat, i) == acc + FlattenFrom(chat, i)
    decreases chat, 0, |chat.extra| - i
  {
    if i < |chat.extra| {
      RecurseAppends(acc, chat.extra[i]);
      RecurseFromAppends(Recurse(acc, chat.extra[i]), chat, i + 1);
    }
  }

  /** The reading of the children is the concatenation of their readings, in order. */
  lemma {:induction false} FlattenFromIsConcat(chat: Chat, i: nat)
    requires i <= |chat.extra|
    ensures FlattenFrom(chat, i) == Concat(seq(|chat.extra| - i, k requires 0 <= k < |chat.extra| - i => Flatten(chat.extra[i + k])))
    decreases |chat.extra| - i
  {
    var parts := seq(|chat.extra| - i, k requires 0 <= k < |chat.extra| - i => Flatten(chat.extra[i + k]));
    if i < |chat.extra| {
      FlattenFromIsConcat(chat, i + 1);
      var rest := seq(|chat.extra| - (i + 1), k requires 0 <= k < |chat.extra| - (i + 1) => Flatten(chat.extra[i + 1 + k]));
      assert parts[1..] == rest;
    }
  }

  /**
   * `chat_to_str(chat)` is `chat.text` followed by `chat_to_str(e)` for
   * each `e` in `chat.extra`, in order.
   */
  lemma ChatToStrIsPreorder(chat: Chat)
    ensures ChatToStr(chat) == chat.text + Concat(seq(|chat.extra|, k requires 0 <= k < |chat.extra| => ChatToStr(chat.extra[k])))
  {
    FlattenFromIsConcat(chat, 0);
    var a := seq(|chat.extra|, k requires 0 <= k < |chat.extra| => ChatToStr(chat.extra[k]));
    var b := seq(|chat.extra| - 0, k requires 0 <= k < |chat.extra| - 0 => Flatten(chat.extra[0 + k]));
    assert a == b;
  }
}
