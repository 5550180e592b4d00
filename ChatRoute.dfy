// The chat route's retrieval step: normalise the question, turn each corpus row
// into a searchable entry, walk the ranked entries to build the grounding text
// and pick a video, fall back to the whole corpus when nothing was ranked, and
// default an empty completion to a fixed apology. The ranking itself and the
// completion are inputs.
module ChatRoute {
  import opened JsText
  import opened VideoPlayer

  // ---- prepareText ----

  /** The `replace(/[^\w\s]/gi, '')` step: keep ASCII word characters and whitespace. */
  function KeepWordAndSpace(s: string): string {
    if s == [] then []
    else (if IsWordChar(s[0]) || IsSpace(s[0]) then [s[0]] else []) + KeepWordAndSpace(s[1..])
  }

  lemma {:induction false} KeepWordAndSpaceShape(s: string)
    ensures forall i :: 0 <= i < |KeepWordAndSpace(s)| ==>
      (IsWordChar(KeepWordAndSpace(s)[i]) || IsSpace(KeepWordAndSpace(s)[i])) &&
      KeepWordAndSpace(s)[i] in s
  {
    if s != [] {
      KeepWordAndSpaceShape(s[1..]);
    }
  }

  lemma {:induction false} KeepWordAndSpaceKeeps(s: string)
    requires forall i :: 0 <= i < |s| ==> IsWordChar(s[i]) || IsSpace(s[i])
    ensures KeepWordAndSpace(s) == s
  {
    if s != [] {
      KeepWordAndSpaceKeeps(s[1..]);
    }
  }

  /** The strip works character by character: it keeps the kept characters of
      each part, in order. */
  lemma {:induction false} KeepWordAndSpaceAppend(a: string, b: string)
    ensures KeepWordAndSpace(a + b) == KeepWordAndSpace(a) + KeepWordAndSpace(b)
  {
    if a == [] {
      assert a + b == b;
    } else {
      var head := if IsWordChar(a[0]) || IsSpace(a[0]) then [a[0]] else [];
      assert (a + b)[0] == a[0] && (a + b)[1..] == a[1..] + b;
      KeepWordAndSpaceAppend(a[1..], b);
      calc {
        KeepWordAndSpace(a + b);
        head + KeepWordAndSpace(a[1..] + b);
        head + (KeepWordAndSpace(a[1..]) + KeepWordAndSpace(b));
        (head + KeepWordAndSpace(a[1..])) + KeepWordAndSpace(b);
        KeepWordAndSpace(a) + KeepWordAndSpace(b);
      }
    }
  }

  /** A single character outside the class is deleted. */
  lemma KeepWordAndSpaceDrops(c: char)
    requires !IsWordChar(c) && !IsSpace(c)
    ensures KeepWordAndSpace([c]) == []
  {
    assert [c][1..] == [];
  }

  /** `prepareText`: lower-case, drop everything but word characters and whitespace, trim. */
  function PrepareText(text: string): string {
    Trim(KeepWordAndSpace(Lower(text)))
  }

  /** The prepared text holds only lower-case ASCII letters, digits, `_` and
      whitespace, and neither starts nor ends with whitespace. */
  lemma PrepareTextShape(text: string)
    ensures var r := PrepareText(text);
      && (forall i :: 0 <= i < |r| ==> (IsWordChar(r[i]) || IsSpace(r[i])) && !('A' <= r[i] <= 'Z'))
      && (r == [] || (!IsSpace(r[0]) && !IsSpace(r[|r| - 1])))
  {
    var lowered := Lower(text);
    var kept := KeepWordAndSpace(lowered);
    var r := Trim(kept);
    LowerAt(text);
    KeepWordAndSpaceShape(lowered);
    TrimShape(kept);
    forall i | 0 <= i < |r|
      ensures (IsWordChar(r[i]) || IsSpace(r[i])) && !('A' <= r[i] <= 'Z')
    {
      assert r[i] in kept;
      var j :| 0 <= j < |kept| && kept[j] == r[i];
      assert kept[j] in lowered;
      var k :| 0 <= k < |lowered| && lowered[k] == kept[j];
      assert !IsUpper(ToLowerChar(text[k]));
    }
  }

  /** Preparing prepared text changes nothing. */
  lemma PrepareTextIdempotent(text: string)
    ensures PrepareText(PrepareText(text)) == PrepareText(text)
  {
    var r := PrepareText(text);
    PrepareTextShape(text);
    assert forall i :: 0 <= i < |r| ==> !IsUpper(r[i]);
    LowerOfLower(r);
    KeepWordAndSpaceKeeps(r);
    TrimTrimmed(r);
  }

  // ---- searchable entries ----

  /** One row of the book corpus. */
  datatype TopicRecord = TopicRecord(topic: string, content: string, keywords: seq<string>, videoId: Option<string>)

  /** A row prepared for the fuzzy ranker. */
  datatype Searchable = Searchable(
    topic: string,
    content: string,
    keywords: seq<string>,
    videoId: Option<string>,
    searchString: string)

  /** Topic, content and the keywords joined by single spaces, separated by single spaces. */
  function SearchString(row: TopicRecord): string {
    row.topic + " " + row.content + " " + Join(row.keywords, " ")
  }

  function ToSearchable(row: TopicRecord): Searchable {
    Searchable(row.topic, row.content, row.keywords, row.videoId, SearchString(row))
  }

  /** The `bookContent.map` building the ranker's input. */
  function SearchableContent(corpus: seq<TopicRecord>): seq<Searchable> {
    seq(|corpus|, i requires 0 <= i < |corpus| => ToSearchable(corpus[i]))
  }

  /** The search string mentions the topic, the content and every keyword, so
      each of them can be matched by the ranker. */
  lemma SearchStringMentions(row: TopicRecord)
    ensures Contains(SearchString(row), row.topic)
    ensures Contains(SearchString(row), row.content)
    ensures forall k :: 0 <= k < |row.keywords| ==> Contains(SearchString(row), row.keywords[k])
  {
    var joined := Join(row.keywords, " ");
    ContainsInfix([], row.topic, " " + row.content + " " + joined);
    assert [] + row.topic + (" " + row.content + " " + joined) == SearchString(row);
    ContainsInfix(row.topic + " ", row.content, " " + joined);
    assert row.topic + " " + row.content + (" " + joined) == SearchString(row);
    forall k | 0 <= k < |row.keywords|
      ensures Contains(SearchString(row), row.keywords[k])
    {
      JoinContainsParts(row.keywords, " ", k);
      ContainsExtended(row.topic + " " + row.content + " ", joined, [], row.keywords[k]);
      assert row.topic + " " + row.content + " " + joined + [] == SearchString(row);
    }
  }

  /** Each searchable entry carries its row's fields unchanged, and its search
      string mentions that row's topic, content and every keyword. */
  lemma SearchableEntriesMention(corpus: seq<TopicRecord>, i: int)
    requires 0 <= i < |corpus|
    ensures var e := SearchableContent(corpus)[i];
      && e.topic == corpus[i].topic && e.content == corpus[i].content
      && e.keywords == corpus[i].keywords && e.videoId == corpus[i].videoId
      && Contains(e.searchString, corpus[i].topic)
      && Contains(e.searchString, corpus[i].content)
      && (forall k :: 0 <= k < |corpus[i].keywords| ==> Contains(e.searchString, corpus[i].keywords[k]))
  {
    SearchStringMentions(corpus[i]);
  }

  /** What the ranker is trusted to return: at most five entries, each one of
      the searchable entries built from the corpus. */
  predicate RankedFrom(results: seq<Searchable>, corpus: seq<TopicRecord>) {
    |results| <= 5 && forall r :: r in results ==> r in SearchableContent(corpus)
  }

  // ---- grounding text and video ----

  /** The grounding text contributed by one topic. */
  function Block(topic: string, content: string): string {
    topic + ":\n" + content + "\n\n"
  }

  /** The blocks of the given entries, in order. */
  function Blocks(entries: seq<Searchable>): string {
    if entries == [] then "" else Block(entries[0].topic, entries[0].content) + Blocks(entries[1..])
  }

  lemma {:induction false} BlocksAppend(a: seq<Searchable>, b: seq<Searchable>)
    ensures Blocks(a + b) == Blocks(a) + Blocks(b)
  {
    if a == [] {
      assert a + b == b;
    } else {
      assert (a + b)[1..] == a[1..] + b;
      BlocksAppend(a[1..], b);
    }
  }

  /** Every block is non-empty, so the blocks are empty exactly when there are no entries. */
  lemma BlocksEmpty(entries: seq<Searchable>)
    ensures Blocks(entries) == "" <==> entries == []
  {
    if entries != [] {
      assert |Block(entries[0].topic, entries[0].content)| >= 2;
    }
  }

  /** The fallback grounding text: `bookContent.map(...).join('')`. */
  function CorpusText(corpus: seq<TopicRecord>): string {
    Join(seq(|corpus|, i requires 0 <= i < |corpus| => Block(corpus[i].topic, corpus[i].content)), "")
  }

  /** The fallback is the text the loop would have built had the ranker returned
      the whole corpus in its original order. */
  lemma {:induction false} CorpusTextIsAllBlocks(corpus: seq<TopicRecord>)
    ensures CorpusText(corpus) == Blocks(SearchableContent(corpus))
  {
    if |corpus| > 1 {
      CorpusTextIsAllBlocks(corpus[1..]);
      var parts := seq(|corpus|, i requires 0 <= i < |corpus| => Block(corpus[i].topic, corpus[i].content));
      assert parts[1..] == seq(|corpus[1..]|, i requires 0 <= i < |corpus[1..]| => Block(corpus[1..][i].topic, corpus[1..][i].content));
      assert SearchableContent(corpus)[1..] == SearchableContent(corpus[1..]);
      assert parts[0] + "" + Join(parts[1..], "") == parts[0] + Join(parts[1..], "");
    } else if |corpus| == 1 {
      assert SearchableContent(corpus)[1..] == [];
    }
  }

  /** The video id of the first entry that has one, or none. */
  function FirstVideo(entries: seq<Searchable>): Option<string> {
    if entries == [] then None
    else if HasVideo(entries[0].videoId) then entries[0].videoId
    else FirstVideo(entries[1..])
  }

  /** `FirstVideo` is the id of the earliest entry with a video; it is absent
      exactly when no entry has one. */
  lemma {:induction false} FirstVideoSpec(entries: seq<Searchable>)
    ensures FirstVideo(entries) == None <==> forall i :: 0 <= i < |entries| ==> !HasVideo(entries[i].videoId)
    ensures FirstVideo(entries) != None ==>
      (exists k :: 0 <= k < |entries| && HasVideo(entries[k].videoId) &&
         FirstVideo(entries) == entries[k].videoId &&
         (forall i :: 0 <= i < k ==> !HasVideo(entries[i].videoId)))
  {
    if entries != [] && !HasVideo(entries[0].videoId) {
      FirstVideoSpec(entries[1..]);
      if FirstVideo(entries) != None {
        var k :| 0 <= k < |entries[1..]| && HasVideo(entries[1..][k].videoId) &&
          FirstVideo(entries[1..]) == entries[1..][k].videoId &&
          forall i :: 0 <= i < k ==> !HasVideo(entries[1..][i].videoId);
        assert HasVideo(entries[k + 1].videoId);
      }
    } else if entries != [] {
      assert HasVideo(entries[0].videoId);
    }
  }

  /** Later entries never override an earlier video. */
  lemma {:induction false} FirstVideoAppend(a: seq<Searchable>, b: seq<Searchable>)
    ensures FirstVideo(a + b) == if FirstVideo(a) != None then FirstVideo(a) else FirstVideo(b)
  {
    if a == [] {
      assert a + b == b;
    } else {
      assert (a + b)[1..] == a[1..] + b;
      FirstVideoAppend(a[1..], b);
    }
  }

  /** With a ranking drawn from the corpus, the chosen video is the id of some corpus row. */
  lemma ChosenVideoFromCorpus(results: seq<Searchable>, corpus: seq<TopicRecord>)
    requires RankedFrom(results, corpus)
    ensures FirstVideo(results) != None ==>
      exists j :: 0 <= j < |corpus| && corpus[j].videoId == FirstVideo(results) && HasVideo(corpus[j].videoId)
  {
    FirstVideoSpec(results);
    if FirstVideo(results) != None {
      var k :| 0 <= k < |results| && HasVideo(results[k].videoId) &&
        FirstVideo(results) == results[k].videoId &&
        forall i :: 0 <= i < k ==> !HasVideo(results[i].videoId);
      assert results[k] in SearchableContent(corpus);
      var j :| 0 <= j < |corpus| && SearchableContent(corpus)[j] == results[k];
      assert corpus[j].videoId == results[k].videoId;
    }
  }

  /** The result loop and the fallback: append each ranked entry's block, keep
      the first usable video id, and when no text was collected use the whole
      corpus instead. */
  method AssembleContext(results: seq<Searchable>, corpus: seq<TopicRecord>)
    returns (relevantContent: string, videoId: Option<string>)
    ensures results != [] ==> relevantContent == Blocks(results)
    ensures results == [] ==> relevantContent == CorpusText(corpus) == Blocks(SearchableContent(corpus))
    ensures videoId == FirstVideo(results)
    ensures results == [] ==> videoId == None
    ensures results != [] || corpus != [] ==> relevantContent != ""
  {
    videoId := None;
    relevantContent := "";
    var i := 0;
    while i < |results|
      invariant 0 <= i <= |results|
      invariant relevantContent == Blocks(results[..i])
      invariant videoId == FirstVideo(results[..i])
      invariant videoId == None || HasVideo(videoId)
    {
      var entry := results[i];
      relevantContent := relevantContent + Block(entry.topic, entry.content);
      assert results[..i + 1] == results[..i] + [entry];
      BlocksAppend(results[..i], [entry]);
      FirstVideoAppend(results[..i], [entry]);
      if !Truthy(videoId) && HasVideo(entry.videoId) {
        videoId := entry.videoId;
      }
      i := i + 1;
    }
    assert results[..i] == results;
    BlocksEmpty(results);
    if relevantContent == "" {
      relevantContent := CorpusText(corpus);
    }
    CorpusTextIsAllBlocks(corpus);
    BlocksEmpty(SearchableContent(corpus));
  }

  // ---- reply ----

  const NoAnswer: string := "Lo siento, no pude generar una respuesta."

  /** The reply text: the completion's content when it is present and
      non-empty, the fixed apology otherwise; never empty. */
  function ReplyContent(completion: Option<string>): (content: string)
    ensures content != ""
    ensures Truthy(completion) ==> content == completion.value
    ensures !Truthy(completion) ==> content == NoAnswer
  {
    if Truthy(completion) then completion.value else NoAnswer
  }

  /** The JSON body of a successful reply as the page reads it. The route sends
      only `content` and `videoId`, so `category` is absent. */
  datatype ChatReply = ChatReply(content: string, videoId: Option<string>, category: Option<string>)

  /** A successful request: prepare the last message, rank the corpus with
      `rank`, assemble the grounding text and the video, and wrap the
      completion `completion` (produced from that grounding text) as the reply. */
  method Post(lastMessage: string, corpus: seq<TopicRecord>,
              rank: (string, seq<Searchable>) -> seq<Searchable>, completion: Option<string>)
    returns (reply: ChatReply, grounding: string)
    requires RankedFrom(rank(PrepareText(Lower(lastMessage)), SearchableContent(corpus)), corpus)
    ensures var results := rank(PrepareText(Lower(lastMessage)), SearchableContent(corpus));
      && reply.content == ReplyContent(completion)
      && reply.videoId == FirstVideo(results)
      && reply.category == None
      && (results != [] ==> grounding == Blocks(results))
      && (results == [] ==> grounding == CorpusText(corpus))
      && (reply.videoId != None ==> exists j :: 0 <= j < |corpus| && corpus[j].videoId == reply.videoId)
  {
    var cleanedMessage := PrepareText(Lower(lastMessage));
    var searchableContent := SearchableContent(corpus);
    var results := rank(cleanedMessage, searchableContent);
    var videoId;
    grounding, videoId := AssembleContext(results, corpus);
    ChosenVideoFromCorpus(results, corpus);
    reply := ChatReply(ReplyContent(completion), videoId, None);
  }
}
