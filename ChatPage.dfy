// The chat page's session: the conversation shown, the input box, the video
// shown, the last error, the loading flag, the question history and the usage
// statistics, with the operations the page performs on them. The request to
// the chat route is split at its `await`: `BeginSubmit` is what happens before
// the request is sent, `FinishSubmit` what happens once its outcome is known.
module ChatPage {
  import opened JsText
  import opened Categories
  import opened SessionStats
  import opened History
  import opened ChatRoute

  datatype Role = User | Assistant

  datatype Message = Message(role: Role, content: string)

  const Greeting: string := "Hola, mi nombre es Bermal. Soy tu asistente de primeros auxilios. ¿En qué puedo ayudarte hoy?"
  const Apology: string := "Lo siento, ha ocurrido un error. Por favor, intenta de nuevo."
  const ServerError: string := "Error en la respuesta del servidor"
  const UnexpectedError: string := "An unexpected error occurred"
  /** The category a history item gets when the reply carries none. */
  const FallbackCategory: string := "General"

  /** How a request to the chat route ended: a reply; a response that was not
      OK, with the `error` field of its body; or an exception, with its message
      when it was an `Error`. */
  datatype Outcome =
    | Replied(reply: ChatReply)
    | Refused(errorField: Option<string>)
    | Threw(message: Option<string>)

  /** The text stored in `error` after a failed request. */
  function FailureMessage(outcome: Outcome): string
    requires !outcome.Replied?
  {
    match outcome
    case Refused(errorField) => if Truthy(errorField) then errorField.value else ServerError
    case Threw(message) => if message.Some? then message.value else UnexpectedError
  }

  /** The category filed on a history item: the reply's, or the fallback. */
  function HistoryCategory(category: Option<string>): string {
    if Truthy(category) then category.value else FallbackCategory
  }

  /** The history without the item at `index`: `filter((_, i) => i !== index)`,
      with `position` the index of the first of `items`. */
  function WithoutIndex(items: seq<HistoryItem>, index: int, position: int): seq<HistoryItem> {
    if items == [] then []
    else (if position != index then [items[0]] else []) + WithoutIndex(items[1..], index, position + 1)
  }

  /** Dropping index `index` removes that item alone and keeps the others in order. */
  lemma {:induction false} WithoutIndexSpec(items: seq<HistoryItem>, index: int, position: int)
    requires position <= index < position + |items|
    ensures WithoutIndex(items, index, position) == items[..index - position] + items[index - position + 1..]
  {
    if position == index {
      WithoutIndexOutside(items[1..], index, position + 1);
      assert items[..0] == [];
    } else {
      WithoutIndexSpec(items[1..], index, position + 1);
      assert items[..index - position] == [items[0]] + items[1..][..index - position - 1];
      assert items[index - position + 1..] == items[1..][index - position..];
    }
  }

  /** An index outside the history removes nothing. */
  lemma {:induction false} WithoutIndexOutside(items: seq<HistoryItem>, index: int, position: int)
    requires index < position || position + |items| <= index
    ensures WithoutIndex(items, index, position) == items
  {
    if items != [] {
      WithoutIndexOutside(items[1..], index, position + 1);
      assert items == [items[0]] + items[1..];
    }
  }

  /** After a successful turn the history is the surviving old items, in their
      order, followed by the new item; nothing stale survives. */
  lemma AnsweredHistory(previous: seq<HistoryItem>, item: HistoryItem, now: int)
    ensures var h := Expire(previous, now) + [item];
      && |h| <= |previous| + 1
      && h[|h| - 1] == item
      && (forall x :: x in h[..|h| - 1] <==> x in previous && IsFresh(x, now))
  {
    var h := Expire(previous, now) + [item];
    ExpireMembers(previous, now);
    assert h[..|h| - 1] == Expire(previous, now);
  }

  /** The route never sends a category, so every answered question is filed
      under "General" in the history while its bucket is named by the
      classifier: deleting it again leaves consistent statistics inconsistent. */
  lemma AnswerThenDeleteFromHistory(s: Stats, question: string, reply: ChatReply)
    requires Canonical(s.questionsByCategory) && Consistent(s)
    requires reply.category == None
    ensures var answered := StatsAfterAnswer(s, DetermineCategory(question, reply.content));
      && HistoryCategory(reply.category) == FallbackCategory
      && Consistent(answered)
      && !Consistent(StatsAfterDelete(answered, HistoryCategory(reply.category)))
  {
    var category := DetermineCategory(question, reply.content);
    AnswerPreservesConsistency(s, category);
    DeleteGeneralBreaksConsistency(s, category);
  }

  class ChatBot {
    var messages: seq<Message>
    var input: string
    var videoId: Option<string>
    var error: Option<string>
    var isLoading: bool
    var history: seq<HistoryItem>
    var stats: Stats

    /** The two totals agree. Every operation but loading keeps this. */
    predicate TotalsAgree()
      reads this
    {
      stats.totalQuestions == stats.totalResponses
    }

    /** A fresh page, before anything is loaded. */
    constructor()
      ensures messages == [] && input == "" && videoId == None && error == None && !isLoading
      ensures history == [] && stats == EmptyStats
      ensures TotalsAgree()
    {
      messages := [];
      input := "";
      videoId := None;
      error := None;
      isLoading := false;
      history := [];
      stats := EmptyStats;
    }

    /** Loading the stored history and statistics when the page mounts, and
        greeting the user. A missing or unreadable stored value leaves the
        current one in place; a loaded history is filtered for expiry at `now`. */
    method Mount(storedHistory: Option<seq<HistoryItem>>, storedStats: Option<Stats>, now: int)
      modifies this
      ensures history == (if storedHistory.Some? then Expire(storedHistory.value, now) else old(history))
      ensures stats == (if storedStats.Some? then storedStats.value else old(stats))
      ensures messages == [Message(Assistant, Greeting)]
      ensures input == old(input) && videoId == old(videoId) && error == old(error) && isLoading == old(isLoading)
    {
      if storedHistory.Some? {
        history := Expire(storedHistory.value, now);
      }
      if storedStats.Some? {
        stats := storedStats.value;
      }
      messages := [Message(Assistant, Greeting)];
    }

    /** Typing into the input box. */
    method SetInput(text: string)
      modifies this
      ensures input == text
      ensures messages == old(messages) && videoId == old(videoId) && error == old(error)
      ensures isLoading == old(isLoading) && history == old(history) && stats == old(stats)
    {
      input := text;
    }

    /** The synchronous start of a submission. Blank input, or a request still
        in flight, changes nothing. Otherwise the input is posted as a user
        message and cleared, the error is reset, loading starts, and the
        question is returned for the request. */
    method BeginSubmit() returns (question: Option<string>)
      modifies this
      ensures Trim(old(input)) == "" || old(isLoading) ==> question == None && unchanged(this)
      ensures Trim(old(input)) != "" && !old(isLoading) ==>
        && question == Some(old(input))
        && messages == old(messages) + [Message(User, old(input))]
        && input == "" && error == None && isLoading
        && videoId == old(videoId) && history == old(history) && stats == old(stats)
    {
      if Trim(input) == "" || isLoading {
        return None;
      }
      question := Some(input);
      messages := messages + [Message(User, input)];
      input := "";
      error := None;
      isLoading := true;
    }

    /** `updateStats`: count one more answered question under the classifier's category. */
    method UpdateStats(question: string, answer: string)
      modifies this
      ensures stats == StatsAfterAnswer(old(stats), DetermineCategory(question, answer))
      ensures old(TotalsAgree()) ==> TotalsAgree()
      ensures messages == old(messages) && input == old(input) && videoId == old(videoId)
      ensures error == old(error) && isLoading == old(isLoading) && history == old(history)
    {
      var category := DetermineCategory(question, answer);
      var buckets := stats.questionsByCategory;
      var i := IndexOfName(buckets, category);
      if i != -1 {
        buckets := buckets[i := buckets[i].(value := buckets[i].value + 1)];
      } else {
        buckets := buckets + [Bucket(category, 1)];
      }
      stats := Stats(stats.totalQuestions + 1, stats.totalResponses + 1, buckets);
    }

    /** The end of a submission, once the request for `question` has ended with
        `outcome`. On a reply: show it, show its video only when the exchange
        is about first aid, count it, and append it to the history after
        dropping expired items. On a failure: record the error and show the
        apology. Either way loading stops. */
    method FinishSubmit(question: string, outcome: Outcome, now: int)
      modifies this
      ensures !isLoading && input == old(input)
      ensures old(TotalsAgree()) ==> TotalsAgree()
      ensures outcome.Replied? ==>
        var reply := outcome.reply;
        var category := DetermineCategory(question, reply.content);
        var related := category != Default;
        && messages == old(messages) + [Message(Assistant, reply.content)]
        && videoId == (if related && Truthy(reply.videoId) then reply.videoId else None)
        && stats == StatsAfterAnswer(old(stats), category)
        && history == Expire(old(history), now) +
             [HistoryItem(question, reply.content, now, if related then reply.videoId else None,
                          HistoryCategory(reply.category))]
        && error == old(error)
      ensures !outcome.Replied? ==>
        && messages == old(messages) + [Message(Assistant, Apology)]
        && error == Some(FailureMessage(outcome))
        && videoId == old(videoId) && history == old(history) && stats == old(stats)
    {
      match outcome {
        case Replied(reply) =>
          var related := DetermineCategory(question, reply.content) != Default;
          messages := messages + [Message(Assistant, reply.content)];
          videoId := if related && Truthy(reply.videoId) then reply.videoId else None;
          UpdateStats(question, reply.content);
          var item := HistoryItem(question, reply.content, now, if related then reply.videoId else None,
                                  HistoryCategory(reply.category));
          history := Expire(history, now) + [item];
        case _ =>
          error := Some(FailureMessage(outcome));
          messages := messages + [Message(Assistant, Apology)];
      }
      isLoading := false;
    }

    /** `handleClearChat`: back to the greeting alone, with no video. */
    method ClearChat()
      modifies this
      ensures messages == [Message(Assistant, Greeting)] && videoId == None
      ensures input == old(input) && error == old(error) && isLoading == old(isLoading)
      ensures history == old(history) && stats == old(stats)
    {
      messages := [Message(Assistant, Greeting)];
      videoId := None;
    }

    /** `handleHistoryClick`: show the chosen exchange alone, with its video if it has one. */
    method HistoryClick(item: HistoryItem)
      modifies this
      ensures messages == [Message(User, item.question), Message(Assistant, item.answer)]
      ensures videoId == (if Truthy(item.videoId) then item.videoId else None)
      ensures input == old(input) && error == old(error) && isLoading == old(isLoading)
      ensures history == old(history) && stats == old(stats)
    {
      messages := [Message(User, item.question), Message(Assistant, item.answer)];
      videoId := if Truthy(item.videoId) then item.videoId else None;
    }

    /** `updateStatsOnDelete`: drop the category's buckets of value at most 1,
        then take one off the first remaining bucket of the category. */
    method UpdateStatsOnDelete(item: HistoryItem)
      modifies this
      ensures stats == StatsAfterDelete(old(stats), item.category)
      ensures old(TotalsAgree()) ==> TotalsAgree()
      ensures messages == old(messages) && input == old(input) && videoId == old(videoId)
      ensures error == old(error) && isLoading == old(isLoading) && history == old(history)
    {
      var inCategory := SameCategory(NormalizeCategory(item.category));
      var buckets := KeepOnDelete(stats.questionsByCategory, inCategory);
      var i := IndexIn(buckets, inCategory);
      if i != -1 {
        buckets := buckets[i := buckets[i].(value := buckets[i].value - 1)];
      }
      stats := Stats(stats.totalQuestions - 1, stats.totalResponses - 1, buckets);
    }

    /** `handleDeleteHistoryItem`: remove the item at `index` from the history
        and uncount it. The page only offers indices of listed items. */
    method DeleteHistoryItem(index: nat)
      requires index < |history|
      modifies this
      ensures history == old(history[..index] + history[index + 1..])
      ensures stats == StatsAfterDelete(old(stats), old(history[index]).category)
      ensures old(TotalsAgree()) ==> TotalsAgree()
      ensures messages == old(messages) && input == old(input) && videoId == old(videoId)
      ensures error == old(error) && isLoading == old(isLoading)
    {
      var item := history[index];
      WithoutIndexSpec(history, index, 0);
      history := WithoutIndex(history, index, 0);
      UpdateStatsOnDelete(item);
    }
  }
}
