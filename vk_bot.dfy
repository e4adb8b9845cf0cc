/**
 * vk_bot.py: the quiz session protocol.  Each user's session lives in a Redis
 * hash under "user:<id>" with the fields "question" and "answer"; a message
 * either asks for a new question, gives up, or is judged as an answer.
 */
module VkBot {
  import opened Text
  import opened QuizUtils
  import opened RedisHash

  /** A platform user id; `str()` of it goes into the storage key. */
  type UserId = int

  // ---------------------------------------------------------------------------
  // Storage key

  predicate IsDigit(c: char) {
    '0' <= c <= '9'
  }

  function DigitChar(d: nat): (c: char)
    requires d < 10
    ensures IsDigit(c) && c as int - '0' as int == d
  {
    (d + '0' as int) as char
  }

  /** `str(n)` for a non-negative `n`: its decimal digits, most significant first. */
  function Decimal(n: nat): (r: string)
    ensures r != [] && All(r, IsDigit)
    decreases n
  {
    if n < 10 then [DigitChar(n)] else Decimal(n / 10) + [DigitChar(n % 10)]
  }

  /** The number a string of decimal digits denotes. */
  function DigitsValue(s: string): nat
    requires All(s, IsDigit)
  {
    if s == [] then 0
    else DigitsValue(s[..|s| - 1]) * 10 + (s[|s| - 1] as int - '0' as int)
  }

  lemma {:induction false} DigitsValueOfDecimal(n: nat)
    ensures DigitsValue(Decimal(n)) == n
    decreases n
  {
    if n >= 10 {
      var r := Decimal(n);
      assert r[..|r| - 1] == Decimal(n / 10);
      DigitsValueOfDecimal(n / 10);
    }
  }

  /** `str(n)` for any integer. */
  function IntToString(n: int): (r: string)
    ensures r != [] && (r[0] == '-' <==> n < 0)
    ensures n < 0 ==> All(r[1..], IsDigit) && DigitsValue(r[1..]) == -n
    ensures n >= 0 ==> All(r, IsDigit) && DigitsValue(r) == n
  {
    DigitsValueOfDecimal(if n < 0 then -n else n);
    if n < 0 then "-" + Decimal(-n) else Decimal(n)
  }

  lemma IntToStringInjective(a: int, b: int)
    ensures IntToString(a) == IntToString(b) ==> a == b
  {
    if IntToString(a) == IntToString(b) {
      assert a < 0 <==> IntToString(a)[0] == '-' by {
        if a >= 0 { assert IsDigit(Decimal(a)[0]); }
      }
      assert b < 0 <==> IntToString(b)[0] == '-' by {
        if b >= 0 { assert IsDigit(Decimal(b)[0]); }
      }
      if a < 0 && b < 0 {
        assert Decimal(-a) == IntToString(a)[1..] == Decimal(-b);
        DigitsValueOfDecimal(-a);
        DigitsValueOfDecimal(-b);
      } else if a >= 0 && b >= 0 {
        DigitsValueOfDecimal(a);
        DigitsValueOfDecimal(b);
      }
    }
  }

  /** `_storage_key`: the Redis key of a user's session. */
  function StorageKey(user: UserId): (key: string)
    ensures |key| > 5 && key[..5] == "user:"
  {
    "user:" + IntToString(user)
  }

  /** Two users never share a session key. */
  lemma StorageKeyInjective(u: UserId, v: UserId)
    ensures StorageKey(u) == StorageKey(v) ==> u == v
  {
    if StorageKey(u) == StorageKey(v) {
      assert IntToString(u) == StorageKey(u)[5..];
      IntToStringInjective(u, v);
    }
  }

  // ---------------------------------------------------------------------------
  // Sessions in the store

  /** The fields `handle_new_question_request` writes and the other handlers delete. */
  const SessionFields: set<string> := {"question", "answer"}

  function QuestionFields(qa: QuestionAnswer): (h: Hash)
    ensures h.Keys == SessionFields
  {
    map["question" := qa.question, "answer" := qa.answer]
  }

  /** HGETALL of the user's key. */
  function Session(s: Store, user: UserId): Hash {
    HGetAll(s, StorageKey(user))
  }

  /** `db.get('answer')`, with a missing field read as the empty string (both are falsy). */
  function ActiveAnswer(h: Hash): (a: string)
    ensures a == "" <==> "answer" !in h || h["answer"] == ""
    ensures a != "" ==> a == h["answer"]
  {
    if "answer" in h then h["answer"] else ""
  }

  /** Every hash has both session fields or neither. */
  ghost predicate Paired(s: Store) {
    forall k :: ("question" in HGetAll(s, k) <==> "answer" in HGetAll(s, k))
  }

  /** What every store the bot writes looks like, provided it started that way. */
  ghost predicate Consistent(s: Store) {
    NoEmptyHash(s) && Paired(s)
  }

  /** Touching one user's key leaves every other user's session as it was. */
  lemma OtherUsersUntouched(s0: Store, s1: Store, user: UserId, other: UserId)
    requires OnlyKeyChanged(s0, s1, StorageKey(user))
    requires other != user
    ensures Session(s1, other) == Session(s0, other)
  {
    StorageKeyInjective(user, other);
  }

  /** Storing a drawn pair keeps every session paired. */
  lemma AskKeepsConsistent(s: Store, user: UserId, qa: QuestionAnswer)
    requires Consistent(s)
    ensures Consistent(HSet(s, StorageKey(user), QuestionFields(qa)))
  {
    var key := StorageKey(user);
    var r := HSet(s, key, QuestionFields(qa));
    forall k ensures "question" in HGetAll(r, k) <==> "answer" in HGetAll(r, k) {
      if k != key {
        assert HGetAll(r, k) == HGetAll(s, k);
      }
    }
  }

  /** Deleting both session fields keeps every session paired. */
  lemma ClearKeepsConsistent(s: Store, user: UserId)
    requires Consistent(s)
    ensures Consistent(HDel(s, StorageKey(user), SessionFields))
  {
    var key := StorageKey(user);
    var r := HDel(s, key, SessionFields);
    forall k ensures "question" in HGetAll(r, k) <==> "answer" in HGetAll(r, k) {
      if k != key {
        assert HGetAll(r, k) == HGetAll(s, k);
      }
    }
  }

  // ---------------------------------------------------------------------------
  // Replies

  datatype Message = Message(to: UserId, text: string)

  const AskFirstReply: string := "Сначала запроси вопрос кнопкой «Новый вопрос»."
  const CorrectReply: string := "Правильно! Поздравляю! Для следующего вопроса нажми «Новый вопрос»."
  const WrongReply: string := "Неправильно… Попробуешь ещё раз?"
  const NoActiveQuestionReply: string := "Нет активного вопроса. Нажми «Новый вопрос»."

  function RevealReply(answer: string): string {
    "Правильный ответ: " + answer
  }

  // ---------------------------------------------------------------------------
  // Dispatch

  /** The fields of a long-poll event the loop looks at. */
  datatype Event = Event(isNewMessage: bool, toMe: bool, user: UserId, text: string)

  datatype Command = Ignore | AskNew | Surrender | Attempt(reply: string)

  /** Which handler the loop of `vk_run_bot` calls for an event, and with what text. */
  function Route(e: Event): (c: Command)
    ensures c != Ignore ==> e.isNewMessage && e.toMe && Trim(e.text) != []
    ensures c.Attempt? ==> c.reply == Trim(e.text)
    ensures c.Attempt? ==> c.reply != Label(NewQuestion) && c.reply != Label(GiveUp)
    ensures e.isNewMessage && e.toMe && Trim(e.text) != [] ==> c != Ignore
    ensures e.isNewMessage && e.toMe && Trim(e.text) == Label(NewQuestion) ==> c == AskNew
    ensures e.isNewMessage && e.toMe && Trim(e.text) == Label(GiveUp) ==> c == Surrender
    ensures e.isNewMessage && e.toMe && Trim(e.text) != []
            && Trim(e.text) != Label(NewQuestion) && Trim(e.text) != Label(GiveUp)
            ==> c == Attempt(Trim(e.text))
  {
    if !e.isNewMessage || !e.toMe then Ignore
    else
      var text := Trim(e.text);
      if text == [] then Ignore
      else if text == Label(NewQuestion) then AskNew
      else if text == Label(GiveUp) then Surrender
      else Attempt(text)
  }

  /** A button pressed with surrounding whitespace still reaches its handler. */
  lemma PaddedButtonRoutes(user: UserId, pre: string, post: string, b: Button)
    requires All(pre, IsSpace) && All(post, IsSpace)
    ensures b == NewQuestion ==> Route(Event(true, true, user, pre + Label(b) + post)) == AskNew
    ensures b == GiveUp ==> Route(Event(true, true, user, pre + Label(b) + post)) == Surrender
    ensures b == MyScore ==> Route(Event(true, true, user, pre + Label(b) + post)) == Attempt(Label(MyScore))
  {
    TrimOfPadded(pre, Label(b), post);
    LabelsDistinct(b, NewQuestion);
    LabelsDistinct(b, GiveUp);
  }

  // ---------------------------------------------------------------------------
  // The bot

  class QuizBot {
    /** The Redis hashes, by key. */
    var store: Store
    /** Every message sent so far, oldest first. */
    ghost var outbox: seq<Message>

    constructor (initial: Store)
      ensures store == initial && outbox == []
    {
      store := initial;
      outbox := [];
    }

    /** `send_message`: one outbound message; the keyboard and random id are transport details. */
    method Send(user: UserId, text: string)
      modifies this`outbox
      ensures outbox == old(outbox) + [Message(user, text)]
    {
      outbox := outbox + [Message(user, text)];
    }

    /**
     * What a new-question request did: with questions available, the drawn
     * pair is written over the user's fields, nothing else in the store moved,
     * and the question text went out; with none, `random.choice` raised and
     * nothing happened.
     */
    twostate predicate AskedNewQuestion(user: UserId, listing: seq<CorpusFile>, pick: nat, ok: bool)
      requires AllQuestions(listing) == [] || pick < |AllQuestions(listing)|
      reads this
    {
      var corpus := AllQuestions(listing);
      && ok == (corpus != [])
      && (ok ==>
            && Session(store, user) == Session(old(store), user) + QuestionFields(corpus[pick])
            && OnlyKeyChanged(old(store), store, StorageKey(user))
            && outbox == old(outbox) + [Message(user, corpus[pick].question)])
      && (!ok ==> store == old(store) && outbox == old(outbox))
    }

    /**
     * What a give-up did: without an active answer, only the prompt; with one,
     * the answer was revealed, both fields deleted, and a new question asked
     * (which fails, after the reveal and the delete, when there are no questions).
     */
    twostate predicate GaveUp(user: UserId, listing: seq<CorpusFile>, pick: nat, ok: bool)
      requires AllQuestions(listing) == [] || pick < |AllQuestions(listing)|
      reads this
    {
      var answer := ActiveAnswer(Session(old(store), user));
      if answer == "" then
        ok && store == old(store) && outbox == old(outbox) + [Message(user, NoActiveQuestionReply)]
      else
        var corpus := AllQuestions(listing);
        var cleared := Session(old(store), user) - SessionFields;
        && ok == (corpus != [])
        && OnlyKeyChanged(old(store), store, StorageKey(user))
        && (ok ==>
              && Session(store, user) == cleared + QuestionFields(corpus[pick])
              && outbox == old(outbox) + [Message(user, RevealReply(answer)), Message(user, corpus[pick].question)])
        && (!ok ==>
              && Session(store, user) == cleared
              && outbox == old(outbox) + [Message(user, RevealReply(answer))])
    }

    /**
     * What a solution attempt did: without an active answer, only the prompt;
     * with a matching reply, both fields deleted and congratulations; with any
     * other reply, only the "wrong" message.
     */
    twostate predicate Attempted(user: UserId, reply: string)
      reads this
    {
      var answer := ActiveAnswer(Session(old(store), user));
      if answer == "" then
        store == old(store) && outbox == old(outbox) + [Message(user, AskFirstReply)]
      else if SameAnswer(reply, answer) then
        && Session(store, user) == Session(old(store), user) - SessionFields
        && OnlyKeyChanged(old(store), store, StorageKey(user))
        && outbox == old(outbox) + [Message(user, CorrectReply)]
      else
        store == old(store) && outbox == old(outbox) + [Message(user, WrongReply)]
    }

    /**
     * `handle_new_question_request`: rescans the corpus, draws the pair at
     * `pick` (the caller's stand-in for `random.choice`), stores it and sends
     * the question.  `ok` is false when the corpus is empty and the draw raises.
     */
    method HandleNewQuestionRequest(user: UserId, listing: seq<CorpusFile>, pick: nat) returns (ok: bool)
      requires AllQuestions(listing) == [] || pick < |AllQuestions(listing)|
      modifies this
      ensures AskedNewQuestion(user, listing, pick, ok)
      ensures Consistent(old(store)) ==> Consistent(store)
    {
      var corpus := LoadAllQuestions(listing);
      if |corpus| == 0 {
        return false;
      }
      var qa := corpus[pick];
      var key := StorageKey(user);
      if Consistent(store) {
        AskKeepsConsistent(store, user, qa);
      }
      HSetHash(store, key, QuestionFields(qa));
      store := HSet(store, key, QuestionFields(qa));
      Send(user, qa.question);
      ok := true;
    }

    /** `handle_solution_attempt`: judges `text` against the stored answer. */
    method HandleSolutionAttempt(user: UserId, text: string)
      modifies this
      ensures Attempted(user, text)
      ensures Consistent(old(store)) ==> Consistent(store)
    {
      var key := StorageKey(user);
      var db := HGetAll(store, key);
      var correctAnswer := ActiveAnswer(db);
      if correctAnswer == "" {
        Send(user, AskFirstReply);
        return;
      }
      var normalizedCorrect := Normalize(StripExplanation(correctAnswer));
      var normalizedUser := Normalize(StripExplanation(text));
      if normalizedUser == normalizedCorrect {
        if Consistent(store) {
          ClearKeepsConsistent(store, user);
        }
        HDelHash(store, key, SessionFields);
        store := HDel(store, key, SessionFields);
        Send(user, CorrectReply);
      } else {
        Send(user, WrongReply);
      }
    }

    /** `handle_give_up`: reveals the answer, clears the session and asks a new question. */
    method HandleGiveUp(user: UserId, listing: seq<CorpusFile>, pick: nat) returns (ok: bool)
      requires AllQuestions(listing) == [] || pick < |AllQuestions(listing)|
      modifies this
      ensures GaveUp(user, listing, pick, ok)
      ensures Consistent(old(store)) ==> Consistent(store)
    {
      var key := StorageKey(user);
      var db := HGetAll(store, key);
      var answer := ActiveAnswer(db);
      if answer == "" {
        Send(user, NoActiveQuestionReply);
        return true;
      }
      ghost var start := outbox;
      Send(user, RevealReply(answer));
      ghost var revealed := outbox;
      ghost var before := store;
      store := HDel(store, key, SessionFields);
      HDelHash(before, key, SessionFields);
      if Consistent(before) {
        ClearKeepsConsistent(before, user);
      }
      ghost var cleared := store;
      ok := HandleNewQuestionRequest(user, listing, pick);
      OnlyKeyChangedTrans(before, cleared, store, key);
      ghost var corpus := AllQuestions(listing);
      if ok {
        assert Session(store, user) == Session(cleared, user) + QuestionFields(corpus[pick]);
        assert outbox == revealed + [Message(user, corpus[pick].question)];
        AppendTwo(start, Message(user, RevealReply(answer)), Message(user, corpus[pick].question));
      }
    }

    /**
     * One turn of the `vk_run_bot` loop: events that are not new messages to
     * the bot, and blank texts, are skipped; the stripped text then selects the
     * handler.  `ok` is false when the handler raised, which ends the loop.
     */
    method Dispatch(event: Event, listing: seq<CorpusFile>, pick: nat) returns (ok: bool)
      requires AllQuestions(listing) == [] || pick < |AllQuestions(listing)|
      modifies this
      ensures match Route(event)
        case Ignore => ok && store == old(store) && outbox == old(outbox)
        case AskNew => AskedNewQuestion(event.user, listing, pick, ok)
        case Surrender => GaveUp(event.user, listing, pick, ok)
        case Attempt(reply) => ok && Attempted(event.user, reply)
      ensures Consistent(old(store)) ==> Consistent(store)
    {
      if !event.isNewMessage || !event.toMe {
        return true;
      }
      var text := Trim(event.text);
      if text == [] {
        return true;
      }
      if text == Label(NewQuestion) {
        ok := HandleNewQuestionRequest(event.user, listing, pick);
      } else if text == Label(GiveUp) {
        ok := HandleGiveUp(event.user, listing, pick);
      } else {
        HandleSolutionAttempt(event.user, text);
        ok := true;
      }
    }
  }

  /**
   * A full round of the protocol: the user asks for a question, answers
   * wrongly, answers rightly, then gives up with no question active.  The
   * session ends as it was apart from the two fields, no other key is touched,
   * and exactly four messages go out.
   */
  method PlayRound(bot: QuizBot, user: UserId, listing: seq<CorpusFile>, pick: nat, wrong: string, right: string)
    requires pick < |AllQuestions(listing)|
    requires AllQuestions(listing)[pick].answer != ""
    requires !SameAnswer(wrong, AllQuestions(listing)[pick].answer)
    requires SameAnswer(right, AllQuestions(listing)[pick].answer)
    modifies bot
    ensures Session(bot.store, user) == Session(old(bot.store), user) - SessionFields
    ensures OnlyKeyChanged(old(bot.store), bot.store, StorageKey(user))
    ensures bot.outbox == old(bot.outbox) + [
      Message(user, AllQuestions(listing)[pick].question),
      Message(user, WrongReply),
      Message(user, CorrectReply),
      Message(user, NoActiveQuestionReply)]
  {
    ghost var qa := AllQuestions(listing)[pick];
    ghost var s0, o0 := bot.store, bot.outbox;
    var ok := bot.HandleNewQuestionRequest(user, listing, pick);
    ghost var s1, o1 := bot.store, bot.outbox;
    assert o1 == o0 + [Message(user, qa.question)];
    assert ActiveAnswer(Session(s1, user)) == qa.answer;
    bot.HandleSolutionAttempt(user, wrong);
    ghost var o2 := bot.outbox;
    assert bot.store == s1 && o2 == o1 + [Message(user, WrongReply)];
    bot.HandleSolutionAttempt(user, right);
    assert bot.outbox == o2 + [Message(user, CorrectReply)];
    assert Session(bot.store, user) == Session(s1, user) - SessionFields;
    AnswerThenClear(Session(s0, user), qa);
    OnlyKeyChangedTrans(s0, s1, bot.store, StorageKey(user));
    ghost var s3, o3 := bot.store, bot.outbox;
    ok := bot.HandleGiveUp(user, listing, pick);
    assert bot.store == s3 && bot.outbox == o3 + [Message(user, NoActiveQuestionReply)];
    AppendFour(o0, Message(user, qa.question), Message(user, WrongReply), Message(user, CorrectReply),
      Message(user, NoActiveQuestionReply));
  }

  /** Appending two messages one at a time is appending them together. */
  lemma AppendTwo<T>(s: seq<T>, a: T, b: T)
    ensures s + [a] + [b] == s + [a, b]
  {
  }

  /** Appending four messages one at a time is appending them together. */
  lemma AppendFour<T>(s: seq<T>, a: T, b: T, c: T, d: T)
    ensures s + [a] + [b] + [c] + [d] == s + [a, b, c, d]
  {
  }

  /** Clearing the session fields right after storing a pair leaves what was there besides them. */
  lemma AnswerThenClear(h: Hash, qa: QuestionAnswer)
    ensures (h + QuestionFields(qa)) - SessionFields == h - SessionFields
  {
  }
}
