// The usage statistics the chat page keeps beside its history: two totals and
// an ordered list of per-category buckets. `StatsAfterAnswer` is what
// `updateStats` computes from the previous statistics and
// `StatsAfterDelete` what `updateStatsOnDelete` computes; the lemmas say
// what each does to the totals and to the buckets, when deleting undoes
// answering, and why in the page as written it usually does not.
module SessionStats {
  import opened JsText
  import opened Categories

  /** One entry of `questionsByCategory`. */
  datatype Bucket = Bucket(name: string, value: int)

  /** The statistics record. Counts are plain integers: nothing in the page keeps them non-negative. */
  datatype Stats = Stats(totalQuestions: int, totalResponses: int, questionsByCategory: seq<Bucket>)

  /** The statistics a fresh page starts with. */
  const EmptyStats: Stats := Stats(0, 0, [])

  /** The sum of the bucket values. */
  function Sum(buckets: seq<Bucket>): int {
    if buckets == [] then 0 else buckets[0].value + Sum(buckets[1..])
  }

  /** The total of the buckets whose name is exactly `name`. */
  function CountOf(buckets: seq<Bucket>, name: string): int {
    if buckets == [] then 0
    else (if buckets[0].name == name then buckets[0].value else 0) + CountOf(buckets[1..], name)
  }

  /** The totals agree with each other and with the buckets. */
  predicate Consistent(s: Stats) {
    s.totalQuestions == s.totalResponses && Sum(s.questionsByCategory) == s.totalQuestions
  }

  /** Buckets as the classifier alone would create them: each named by a distinct label, each positive. */
  predicate Canonical(buckets: seq<Bucket>) {
    (forall i :: 0 <= i < |buckets| ==> buckets[i].name in Labels && buckets[i].value >= 1) &&
    (forall i, j :: 0 <= i < j < |buckets| ==> buckets[i].name != buckets[j].name)
  }

  // ---- updateStats ----

  /** `findIndex` by exact bucket name; -1 when there is none. */
  function IndexOfName(buckets: seq<Bucket>, name: string): (r: int)
    ensures -1 <= r < |buckets|
    ensures r == -1 <==> forall i :: 0 <= i < |buckets| ==> buckets[i].name != name
    ensures r >= 0 ==> buckets[r].name == name && forall i :: 0 <= i < r ==> buckets[i].name != name
  {
    if buckets == [] then -1
    else if buckets[0].name == name then 0
    else
      var r := IndexOfName(buckets[1..], name);
      if r == -1 then -1 else r + 1
  }

  /** The statistics after one more answered question in `category`: both totals
      go up by one; the first bucket named `category` goes up by one, or a new
      bucket with value 1 is appended when there is none. */
  function StatsAfterAnswer(s: Stats, category: string): Stats {
    var buckets := s.questionsByCategory;
    var i := IndexOfName(buckets, category);
    Stats(s.totalQuestions + 1, s.totalResponses + 1,
          if i != -1 then buckets[i := buckets[i].(value := buckets[i].value + 1)]
          else buckets + [Bucket(category, 1)])
  }

  lemma {:induction false} SumAppend(a: seq<Bucket>, b: seq<Bucket>)
    ensures Sum(a + b) == Sum(a) + Sum(b)
    ensures forall name :: CountOf(a + b, name) == CountOf(a, name) + CountOf(b, name)
  {
    if a != [] {
      assert (a + b)[1..] == a[1..] + b;
      SumAppend(a[1..], b);
    } else {
      assert a + b == b;
    }
  }

  lemma {:induction false} SumUpdate(buckets: seq<Bucket>, i: nat, delta: int)
    requires i < |buckets|
    ensures Sum(buckets[i := buckets[i].(value := buckets[i].value + delta)]) == Sum(buckets) + delta
    ensures forall name :: (CountOf(buckets[i := buckets[i].(value := buckets[i].value + delta)], name) ==
      CountOf(buckets, name) + (if name == buckets[i].name then delta else 0))
  {
    var updated := buckets[i := buckets[i].(value := buckets[i].value + delta)];
    if i == 0 {
      assert updated[1..] == buckets[1..];
    } else {
      assert updated[1..] == buckets[1..][i - 1 := buckets[i].(value := buckets[i].value + delta)];
      SumUpdate(buckets[1..], i - 1, delta);
    }
  }

  /** Answering a question adds exactly one to each total and to the sum of the
      buckets; it adds one to the count of `category` and leaves every other
      name's count alone; bucket names keep their places. Only the first bucket
      named `category` changes, by one, and a bucket with value 1 is appended
      at the end exactly when no bucket has that name. */
  lemma AnswerRecordsOneQuestion(s: Stats, category: string)
    ensures var t := StatsAfterAnswer(s, category);
      && t.totalQuestions == s.totalQuestions + 1
      && t.totalResponses == s.totalResponses + 1
      && Sum(t.questionsByCategory) == Sum(s.questionsByCategory) + 1
      && (forall name :: CountOf(t.questionsByCategory, name) ==
            CountOf(s.questionsByCategory, name) + (if name == category then 1 else 0))
      && |s.questionsByCategory| <= |t.questionsByCategory| <= |s.questionsByCategory| + 1
      && (forall i :: 0 <= i < |s.questionsByCategory| ==>
            t.questionsByCategory[i].name == s.questionsByCategory[i].name)
    ensures var t := StatsAfterAnswer(s, category).questionsByCategory;
      var k := IndexOfName(s.questionsByCategory, category);
      && (k != -1 ==>
            && |t| == |s.questionsByCategory|
            && t[k].value == s.questionsByCategory[k].value + 1
            && (forall j :: 0 <= j < |t| && j != k ==> t[j] == s.questionsByCategory[j]))
      && (k == -1 ==> t == s.questionsByCategory + [Bucket(category, 1)])
  {
    var buckets := s.questionsByCategory;
    var i := IndexOfName(buckets, category);
    if i != -1 {
      SumUpdate(buckets, i, 1);
    } else {
      var added := [Bucket(category, 1)];
      SumAppend(buckets, added);
      assert added[1..] == [];
      assert forall name :: CountOf(added, name) == (if name == category then 1 else 0);
    }
  }

  /** Answering keeps the statistics consistent. */
  lemma AnswerPreservesConsistency(s: Stats, category: string)
    requires Consistent(s)
    ensures Consistent(StatsAfterAnswer(s, category))
  {
    AnswerRecordsOneQuestion(s, category);
  }

  /** Answering with a classifier label keeps the buckets canonical. */
  lemma AnswerPreservesCanonical(s: Stats, category: string)
    requires Canonical(s.questionsByCategory) && category in Labels
    ensures Canonical(StatsAfterAnswer(s, category).questionsByCategory)
  {
    var t := StatsAfterAnswer(s, category).questionsByCategory;
    AnswerRecordsOneQuestion(s, category);
    if IndexOfName(s.questionsByCategory, category) == -1 {
      assert t == s.questionsByCategory + [Bucket(category, 1)];
    }
  }

  // ---- updateStatsOnDelete ----

  /** The test both callbacks of `updateStatsOnDelete` apply to a bucket name:
      does it normalise to `norm`? */
  function SameCategory(norm: string): string -> bool {
    name => NormalizeCategory(name) == norm
  }

  /** The `filter` of `updateStatsOnDelete`: drop every bucket in the category
      whose value is at most 1. */
  function KeepOnDelete(buckets: seq<Bucket>, inCategory: string -> bool): seq<Bucket> {
    if buckets == [] then []
    else
      var b := buckets[0];
      (if !inCategory(b.name) || b.value > 1 then [b] else []) + KeepOnDelete(buckets[1..], inCategory)
  }

  /** The `findIndex` of `updateStatsOnDelete`: the first bucket in the category, or -1. */
  function IndexIn(buckets: seq<Bucket>, inCategory: string -> bool): (r: int)
    ensures -1 <= r < |buckets|
  {
    if buckets == [] then -1
    else if inCategory(buckets[0].name) then 0
    else
      var r := IndexIn(buckets[1..], inCategory);
      if r == -1 then -1 else r + 1
  }

  /** `IndexIn` finds the first bucket of the category, and -1 exactly when there is none. */
  lemma {:induction false} IndexInSpec(buckets: seq<Bucket>, inCategory: string -> bool)
    ensures var r := IndexIn(buckets, inCategory);
      && -1 <= r < |buckets|
      && (r == -1 <==> forall i :: 0 <= i < |buckets| ==> !inCategory(buckets[i].name))
      && (r >= 0 ==> inCategory(buckets[r].name) && forall i :: 0 <= i < r ==> !inCategory(buckets[i].name))
  {
    if buckets != [] && !inCategory(buckets[0].name) {
      IndexInSpec(buckets[1..], inCategory);
    }
  }

  /** The statistics after deleting a history item filed under `category`: both
      totals go down by one, with no floor; buckets whose normalised name is the
      category's and whose value is at most 1 are dropped, and the first
      remaining bucket of that category, if any, goes down by one. */
  function StatsAfterDelete(s: Stats, category: string): Stats {
    Stats(s.totalQuestions - 1, s.totalResponses - 1,
          BucketsAfterDelete(s.questionsByCategory, SameCategory(NormalizeCategory(category))))
  }

  /** The buckets part of `StatsAfterDelete`. */
  function BucketsAfterDelete(buckets: seq<Bucket>, inCategory: string -> bool): seq<Bucket> {
    var kept := KeepOnDelete(buckets, inCategory);
    var i := IndexIn(kept, inCategory);
    if i != -1 then kept[i := kept[i].(value := kept[i].value - 1)] else kept
  }

  /** The buckets outside the category, in order. */
  function Others(buckets: seq<Bucket>, inCategory: string -> bool): seq<Bucket> {
    if buckets == [] then []
    else (if !inCategory(buckets[0].name) then [buckets[0]] else []) + Others(buckets[1..], inCategory)
  }

  /** The buckets in the category, in order. */
  function Matching(buckets: seq<Bucket>, inCategory: string -> bool): seq<Bucket> {
    if buckets == [] then []
    else (if inCategory(buckets[0].name) then [buckets[0]] else []) + Matching(buckets[1..], inCategory)
  }

  /** The buckets whose value exceeds 1, in order. */
  function AboveOne(buckets: seq<Bucket>): seq<Bucket> {
    if buckets == [] then [] else (if buckets[0].value > 1 then [buckets[0]] else []) + AboveOne(buckets[1..])
  }

  /** The delete's filter works bucket by bucket, so the kept buckets keep their
      relative order across both parts. */
  lemma {:induction false} KeepOnDeleteAppend(a: seq<Bucket>, b: seq<Bucket>, inCategory: string -> bool)
    ensures KeepOnDelete(a + b, inCategory) == KeepOnDelete(a, inCategory) + KeepOnDelete(b, inCategory)
  {
    if a == [] {
      assert a + b == b;
    } else {
      var head := if !inCategory(a[0].name) || a[0].value > 1 then [a[0]] else [];
      assert (a + b)[0] == a[0] && (a + b)[1..] == a[1..] + b;
      KeepOnDeleteAppend(a[1..], b, inCategory);
      calc {
        KeepOnDelete(a + b, inCategory);
        head + KeepOnDelete(a[1..] + b, inCategory);
        head + (KeepOnDelete(a[1..], inCategory) + KeepOnDelete(b, inCategory));
        (head + KeepOnDelete(a[1..], inCategory)) + KeepOnDelete(b, inCategory);
        KeepOnDelete(a, inCategory) + KeepOnDelete(b, inCategory);
      }
    }
  }

  lemma {:induction false} PartsAppend(a: seq<Bucket>, b: seq<Bucket>, inCategory: string -> bool)
    ensures Others(a + b, inCategory) == Others(a, inCategory) + Others(b, inCategory)
    ensures Matching(a + b, inCategory) == Matching(a, inCategory) + Matching(b, inCategory)
  {
    OthersAppend(a, b, inCategory);
    MatchingAppend(a, b, inCategory);
  }

  lemma {:induction false} OthersAppend(a: seq<Bucket>, b: seq<Bucket>, inCategory: string -> bool)
    ensures Others(a + b, inCategory) == Others(a, inCategory) + Others(b, inCategory)
  {
    if a == [] {
      assert a + b == b;
    } else {
      var head := if !inCategory(a[0].name) then [a[0]] else [];
      assert (a + b)[0] == a[0] && (a + b)[1..] == a[1..] + b;
      OthersAppend(a[1..], b, inCategory);
      calc {
        Others(a + b, inCategory);
        head + Others(a[1..] + b, inCategory);
        head + (Others(a[1..], inCategory) + Others(b, inCategory));
        (head + Others(a[1..], inCategory)) + Others(b, inCategory);
      }
    }
  }

  lemma {:induction false} MatchingAppend(a: seq<Bucket>, b: seq<Bucket>, inCategory: string -> bool)
    ensures Matching(a + b, inCategory) == Matching(a, inCategory) + Matching(b, inCategory)
  {
    if a == [] {
      assert a + b == b;
    } else {
      var head := if inCategory(a[0].name) then [a[0]] else [];
      assert (a + b)[0] == a[0] && (a + b)[1..] == a[1..] + b;
      MatchingAppend(a[1..], b, inCategory);
      calc {
        Matching(a + b, inCategory);
        head + Matching(a[1..] + b, inCategory);
        head + (Matching(a[1..], inCategory) + Matching(b, inCategory));
        (head + Matching(a[1..], inCategory)) + Matching(b, inCategory);
      }
    }
  }

  lemma {:induction false} AboveOneAppend(a: seq<Bucket>, b: seq<Bucket>)
    ensures AboveOne(a + b) == AboveOne(a) + AboveOne(b)
  {
    if a == [] {
      assert a + b == b;
    } else {
      var head := if a[0].value > 1 then [a[0]] else [];
      assert (a + b)[0] == a[0] && (a + b)[1..] == a[1..] + b;
      AboveOneAppend(a[1..], b);
      calc {
        AboveOne(a + b);
        head + AboveOne(a[1..] + b);
        head + (AboveOne(a[1..]) + AboveOne(b));
        (head + AboveOne(a[1..])) + AboveOne(b);
      }
    }
  }

  lemma {:induction false} KeepOnDeleteParts(buckets: seq<Bucket>, inCategory: string -> bool)
    ensures Others(KeepOnDelete(buckets, inCategory), inCategory) == Others(buckets, inCategory)
    ensures Matching(KeepOnDelete(buckets, inCategory), inCategory) == AboveOne(Matching(buckets, inCategory))
  {
    if buckets != [] {
      var b := buckets[0];
      KeepOnDeleteParts(buckets[1..], inCategory);
      var head := if !inCategory(b.name) || b.value > 1 then [b] else [];
      PartsAppend(head, KeepOnDelete(buckets[1..], inCategory), inCategory);
      var m := if inCategory(b.name) then [b] else [];
      AboveOneAppend(m, Matching(buckets[1..], inCategory));
      assert [b][1..] == [];
    }
  }

  /** How the two partitions split off a first bucket. */
  lemma PartsCons(b: Bucket, rest: seq<Bucket>, inCategory: string -> bool)
    ensures inCategory(b.name) ==>
      Others([b] + rest, inCategory) == Others(rest, inCategory) &&
      Matching([b] + rest, inCategory) == [b] + Matching(rest, inCategory)
    ensures !inCategory(b.name) ==>
      Others([b] + rest, inCategory) == [b] + Others(rest, inCategory) &&
      Matching([b] + rest, inCategory) == Matching(rest, inCategory)
  {
    assert ([b] + rest)[0] == b && ([b] + rest)[1..] == rest;
  }

  /** A list of buckets with its first value lowered by one. */
  function DecrementHead(buckets: seq<Bucket>): seq<Bucket> {
    if buckets == [] then [] else [buckets[0].(value := buckets[0].value - 1)] + buckets[1..]
  }

  /** Decrementing the first bucket of the category, at index `i`, leaves the
      buckets outside the category alone and changes only the head of those inside it. */
  lemma {:induction false} DecrementFirstMatch(buckets: seq<Bucket>, inCategory: string -> bool, i: nat)
    requires i < |buckets| && inCategory(buckets[i].name)
    requires forall j :: 0 <= j < i ==> !inCategory(buckets[j].name)
    ensures Matching(buckets, inCategory) != []
    ensures Others(buckets[i := buckets[i].(value := buckets[i].value - 1)], inCategory) == Others(buckets, inCategory)
    ensures Matching(buckets[i := buckets[i].(value := buckets[i].value - 1)], inCategory) ==
      DecrementHead(Matching(buckets, inCategory))
  {
    var b := buckets[0];
    var rest := buckets[1..];
    var updated := buckets[i := buckets[i].(value := buckets[i].value - 1)];
    assert buckets == [b] + rest;
    if i == 0 {
      var b' := b.(value := b.value - 1);
      assert updated == [b'] + rest;
      PartsCons(b, rest, inCategory);
      PartsCons(b', rest, inCategory);
    } else {
      var updatedRest := rest[i - 1 := rest[i - 1].(value := rest[i - 1].value - 1)];
      assert updated == [b] + updatedRest;
      DecrementFirstMatch(rest, inCategory, i - 1);
      PartsCons(b, rest, inCategory);
      PartsCons(b, updatedRest, inCategory);
    }
  }

  lemma {:induction false} NothingInCategory(buckets: seq<Bucket>, inCategory: string -> bool)
    requires forall i :: 0 <= i < |buckets| ==> !inCategory(buckets[i].name)
    ensures Matching(buckets, inCategory) == []
    ensures KeepOnDelete(buckets, inCategory) == buckets
  {
    if buckets != [] {
      NothingInCategory(buckets[1..], inCategory);
    }
  }

  /** The buckets after a delete: those outside the category are untouched and
      keep their order; of those inside it, the ones of value at most 1 are
      gone and the first of the rest loses one. */
  lemma DeleteBucketsParts(buckets: seq<Bucket>, inCategory: string -> bool)
    ensures Others(BucketsAfterDelete(buckets, inCategory), inCategory) == Others(buckets, inCategory)
    ensures Matching(BucketsAfterDelete(buckets, inCategory), inCategory) ==
      DecrementHead(AboveOne(Matching(buckets, inCategory)))
  {
    var kept := KeepOnDelete(buckets, inCategory);
    var after := BucketsAfterDelete(buckets, inCategory);
    KeepOnDeleteParts(buckets, inCategory);
    assert Matching(kept, inCategory) == AboveOne(Matching(buckets, inCategory));
    IndexInSpec(kept, inCategory);
    var i := IndexIn(kept, inCategory);
    if i != -1 {
      assert after == kept[i := kept[i].(value := kept[i].value - 1)];
      DecrementFirstMatch(kept, inCategory, i);
    } else {
      assert after == kept;
      NothingInCategory(kept, inCategory);
      assert DecrementHead(Matching(kept, inCategory)) == [];
    }
  }

  /** Deleting moves both totals down by one; buckets under other normalised
      names are untouched and keep their order; of the buckets under the deleted
      item's normalised category, those with value at most 1 disappear and the
      first of the rest loses one. */
  lemma DeleteRemovesOneQuestion(s: Stats, category: string)
    ensures StatsAfterDelete(s, category).totalQuestions == s.totalQuestions - 1
    ensures StatsAfterDelete(s, category).totalResponses == s.totalResponses - 1
    ensures Others(StatsAfterDelete(s, category).questionsByCategory, SameCategory(NormalizeCategory(category))) ==
      Others(s.questionsByCategory, SameCategory(NormalizeCategory(category)))
    ensures Matching(StatsAfterDelete(s, category).questionsByCategory, SameCategory(NormalizeCategory(category))) ==
      DecrementHead(AboveOne(Matching(s.questionsByCategory, SameCategory(NormalizeCategory(category)))))
  {
    DeleteBucketsParts(s.questionsByCategory, SameCategory(NormalizeCategory(category)));
  }

  /** When no bucket shares the deleted item's normalised category, only the
      totals move: the buckets stay exactly as they were. */
  lemma DeleteWithoutMatchKeepsBuckets(s: Stats, category: string)
    requires forall i :: 0 <= i < |s.questionsByCategory| ==>
      NormalizeCategory(s.questionsByCategory[i].name) != NormalizeCategory(category)
    ensures StatsAfterDelete(s, category).questionsByCategory == s.questionsByCategory
  {
    var inCategory := SameCategory(NormalizeCategory(category));
    NothingInCategory(s.questionsByCategory, inCategory);
    IndexInSpec(s.questionsByCategory, inCategory);
  }

  /** A filter that finds no bucket of the category with value at most 1 keeps everything. */
  lemma {:induction false} KeepAll(buckets: seq<Bucket>, inCategory: string -> bool)
    requires forall i :: 0 <= i < |buckets| ==> !inCategory(buckets[i].name) || buckets[i].value > 1
    ensures KeepOnDelete(buckets, inCategory) == buckets
  {
    if buckets != [] {
      KeepAll(buckets[1..], inCategory);
    }
  }

  /** The first bucket of the category is found at its index. */
  lemma {:induction false} IndexInAt(buckets: seq<Bucket>, k: nat, inCategory: string -> bool)
    requires k < |buckets| && inCategory(buckets[k].name)
    requires forall i :: 0 <= i < k ==> !inCategory(buckets[i].name)
    ensures IndexIn(buckets, inCategory) == k
  {
    if k > 0 {
      IndexInAt(buckets[1..], k - 1, inCategory);
    }
  }

  /** A bucket of value 1 appended after buckets outside its category is filtered out again. */
  lemma {:induction false} DropLast(buckets: seq<Bucket>, added: Bucket, inCategory: string -> bool)
    requires forall i :: 0 <= i < |buckets| ==> !inCategory(buckets[i].name)
    requires inCategory(added.name) && added.value <= 1
    ensures KeepOnDelete(buckets + [added], inCategory) == buckets
  {
    if buckets == [] {
      assert buckets + [added] == [added];
    } else {
      assert (buckets + [added])[0] == buckets[0] && (buckets + [added])[1..] == buckets[1..] + [added];
      DropLast(buckets[1..], added, inCategory);
    }
  }

  /** Deleting from a category whose only bucket was just created with value 1 removes that bucket. */
  lemma DeleteRemovesAdded(buckets: seq<Bucket>, added: Bucket, inCategory: string -> bool)
    requires forall i :: 0 <= i < |buckets| ==> !inCategory(buckets[i].name)
    requires inCategory(added.name) && added.value == 1
    ensures BucketsAfterDelete(buckets + [added], inCategory) == buckets
  {
    DropLast(buckets, added, inCategory);
    IndexInSpec(buckets, inCategory);
  }

  /** Deleting from the category of the bucket at `k`, just incremented, takes the increment back. */
  lemma UndoBumped(buckets: seq<Bucket>, k: nat, inCategory: string -> bool)
    requires k < |buckets| && inCategory(buckets[k].name) && buckets[k].value >= 1
    requires forall i :: 0 <= i < |buckets| && i != k ==> !inCategory(buckets[i].name)
    ensures BucketsAfterDelete(buckets[k := buckets[k].(value := buckets[k].value + 1)], inCategory) == buckets
  {
    var bumped := buckets[k := buckets[k].(value := buckets[k].value + 1)];
    KeepAll(bumped, inCategory);
    IndexInAt(bumped, k, inCategory);
    assert bumped[k].(value := bumped[k].value - 1) == buckets[k];
    assert bumped[k := buckets[k]] == buckets;
  }

  /** Deleting right after answering restores the buckets, for any test that
      singles out the answered category among positive, distinctly named buckets. */
  lemma DeleteAfterAnswerBuckets(s: Stats, category: string, inCategory: string -> bool)
    requires Canonical(s.questionsByCategory) && inCategory(category)
    requires forall i :: 0 <= i < |s.questionsByCategory| && s.questionsByCategory[i].name != category ==>
      !inCategory(s.questionsByCategory[i].name)
    ensures BucketsAfterDelete(StatsAfterAnswer(s, category).questionsByCategory, inCategory) == s.questionsByCategory
  {
    var buckets := s.questionsByCategory;
    var k := IndexOfName(buckets, category);
    if k != -1 {
      assert StatsAfterAnswer(s, category).questionsByCategory == buckets[k := buckets[k].(value := buckets[k].value + 1)];
      UndoBumped(buckets, k, inCategory);
    } else {
      assert StatsAfterAnswer(s, category).questionsByCategory == buckets + [Bucket(category, 1)];
      DeleteRemovesAdded(buckets, Bucket(category, 1), inCategory);
    }
  }

  /** A lone bucket of the category with value at most 1 is filtered out: the
      sum drops by its value and nothing of the category is left. */
  lemma {:induction false} DropAtSum(buckets: seq<Bucket>, k: nat, inCategory: string -> bool)
    requires k < |buckets| && inCategory(buckets[k].name) && buckets[k].value <= 1
    requires forall i :: 0 <= i < |buckets| && i != k ==> !inCategory(buckets[i].name)
    ensures Sum(KeepOnDelete(buckets, inCategory)) == Sum(buckets) - buckets[k].value
    ensures IndexIn(KeepOnDelete(buckets, inCategory), inCategory) == -1
  {
    var rest := buckets[1..];
    if k == 0 {
      assert forall i :: 0 <= i < |rest| ==> rest[i] == buckets[i + 1];
      NothingInCategory(rest, inCategory);
      IndexInSpec(rest, inCategory);
      assert KeepOnDelete(buckets, inCategory) == [] + KeepOnDelete(rest, inCategory);
      assert [] + rest == rest;
    } else {
      DropAtSum(rest, k - 1, inCategory);
      var kept := KeepOnDelete(rest, inCategory);
      assert KeepOnDelete(buckets, inCategory) == [buckets[0]] + kept;
      assert ([buckets[0]] + kept)[0] == buckets[0] && ([buckets[0]] + kept)[1..] == kept;
    }
  }

  /** With exactly one bucket of the category, of positive value, deleting takes one off the sum. */
  lemma UniqueMatchSum(buckets: seq<Bucket>, k: nat, inCategory: string -> bool)
    requires k < |buckets| && inCategory(buckets[k].name) && buckets[k].value >= 1
    requires forall i :: 0 <= i < |buckets| && i != k ==> !inCategory(buckets[i].name)
    ensures Sum(BucketsAfterDelete(buckets, inCategory)) == Sum(buckets) - 1
  {
    if buckets[k].value > 1 {
      KeepAll(buckets, inCategory);
      IndexInAt(buckets, k, inCategory);
      SumUpdate(buckets, k, -1);
    } else {
      DropAtSum(buckets, k, inCategory);
    }
  }

  /** With exactly one bucket under the deleted item's normalised category, of
      positive value, deleting takes exactly one off the bucket sum. */
  lemma DeleteUniqueMatchSum(s: Stats, category: string, k: nat)
    requires k < |s.questionsByCategory|
    requires NormalizeCategory(s.questionsByCategory[k].name) == NormalizeCategory(category)
    requires s.questionsByCategory[k].value >= 1
    requires forall i :: 0 <= i < |s.questionsByCategory| && i != k ==>
      NormalizeCategory(s.questionsByCategory[i].name) != NormalizeCategory(category)
    ensures Sum(StatsAfterDelete(s, category).questionsByCategory) == Sum(s.questionsByCategory) - 1
  {
    UniqueMatchSum(s.questionsByCategory, k, SameCategory(NormalizeCategory(category)));
  }

  /** When the buckets are canonical and the deleted item carries the label it
      was classified under, deleting right after answering restores the
      statistics exactly. */
  lemma DeleteUndoesAnswer(s: Stats, category: string)
    requires Canonical(s.questionsByCategory) && category in Labels
    ensures StatsAfterDelete(StatsAfterAnswer(s, category), category) == s
  {
    var buckets := s.questionsByCategory;
    var inCategory := SameCategory(NormalizeCategory(category));
    forall i | 0 <= i < |buckets| && buckets[i].name != category
      ensures !inCategory(buckets[i].name)
    {
      NormalizedLabelsDiffer(buckets[i].name, category);
    }
    DeleteAfterAnswerBuckets(s, category, inCategory);
  }

  /** The page files every history item under "General" while the buckets are
      named by the classifier, so deleting an item just answered leaves its
      bucket in place: the totals return to their old values and the bucket sum
      does not, and consistent statistics become inconsistent. */
  lemma DeleteGeneralBreaksConsistency(s: Stats, category: string)
    requires Canonical(s.questionsByCategory) && category in Labels
    requires Consistent(s)
    ensures var t := StatsAfterDelete(StatsAfterAnswer(s, category), "General");
      && t.totalQuestions == s.totalQuestions
      && t.totalResponses == s.totalResponses
      && Sum(t.questionsByCategory) == s.totalQuestions + 1
      && !Consistent(t)
  {
    var answered := StatsAfterAnswer(s, category);
    AnswerPreservesCanonical(s, category);
    AnswerRecordsOneQuestion(s, category);
    forall i | 0 <= i < |answered.questionsByCategory|
      ensures NormalizeCategory(answered.questionsByCategory[i].name) != NormalizeCategory("General")
    {
      NormalizedLabelsDiffer(answered.questionsByCategory[i].name, "General");
    }
    DeleteWithoutMatchKeepsBuckets(answered, "General");
  }
}
