/**
  The views of the polls application with HTTP, templates and the ORM taken
  away: the index of the latest published questions, the detail lookup that
  hides unpublished questions, and the vote that increments one choice's
  counter. A table is a sequence of rows; "now" is an integer timestamp
  passed in by the caller.
 */
module Polls {

  datatype Option<T> = None | Some(value: T)

  /** A row of the question table; `id` is its primary key. */
  datatype Question = Question(id: nat, text: string, pubDate: int)

  /** A row of the choice table; `question` is the primary key of the question it belongs to. */
  datatype Choice = Choice(id: nat, question: nat, text: string, votes: int)

  /** How many questions the index shows. */
  const IndexSize: nat := 5

  function Min(a: int, b: int): int
  {
    if a <= b then a else b
  }

  predicate UniqueQuestionIds(qs: seq<Question>)
  {
    forall i, j :: 0 <= i < j < |qs| ==> qs[i].id != qs[j].id
  }

  predicate UniqueChoiceIds(cs: seq<Choice>)
  {
    forall i, j :: 0 <= i < j < |cs| ==> cs[i].id != cs[j].id
  }

  // ---------------------------------------------------------------------
  // Publication filter: `pub_date__lte=now`

  /** The questions published at `now`, in table order, each as often as in the table. */
  function Published(qs: seq<Question>, now: int): (r: seq<Question>)
    ensures forall q :: multiset(r)[q] == if q.pubDate <= now then multiset(qs)[q] else 0
    ensures forall q :: q in r <==> q in qs && q.pubDate <= now
  {
    if qs == [] then []
    else
      assert qs == [qs[0]] + qs[1..];
      (if qs[0].pubDate <= now then [qs[0]] else []) + Published(qs[1..], now)
  }

  // ---------------------------------------------------------------------
  // Ordering: `order_by("-pub_date")`

  /** Newest first: publication dates never increase along the sequence. */
  predicate NewestFirst(s: seq<Question>)
  {
    forall i, j :: 0 <= i < j < |s| ==> s[i].pubDate >= s[j].pubDate
  }

  function Insert(q: Question, s: seq<Question>): (r: seq<Question>)
    requires NewestFirst(s)
    ensures NewestFirst(r)
    ensures multiset(r) == multiset(s) + multiset{q}
  {
    if s == [] || q.pubDate >= s[0].pubDate then
      PrependNewest(q, s);
      [q] + s
    else
      var rest := Insert(q, s[1..]);
      assert s == [s[0]] + s[1..];
      OlderThanHead(s, q, rest);
      PrependNewest(s[0], rest);
      [s[0]] + rest
  }

  lemma OlderThanHead(s: seq<Question>, q: Question, rest: seq<Question>)
    requires NewestFirst(s) && s != [] && q.pubDate < s[0].pubDate
    requires multiset(rest) == multiset(s[1..]) + multiset{q}
    ensures forall x :: x in rest ==> x.pubDate <= s[0].pubDate
  {
    forall x | x in rest ensures x.pubDate <= s[0].pubDate {
      assert x in multiset(rest);
      if x != q {
        assert x in s[1..];
      }
    }
  }

  /** A row no older than every row of a newest-first sequence can head it. */
  lemma PrependNewest(h: Question, s: seq<Question>)
    requires NewestFirst(s)
    requires forall x :: x in s ==> x.pubDate <= h.pubDate
    ensures NewestFirst([h] + s)
  {
    forall i, j | 0 <= i < j < |[h] + s|
      ensures ([h] + s)[i].pubDate >= ([h] + s)[j].pubDate
    {
      if i == 0 {
        assert ([h] + s)[j] == s[j - 1];
      }
    }
  }

  /** The rows ordered newest first; the order among equal dates is left open. */
  function SortNewestFirst(s: seq<Question>): (r: seq<Question>)
    ensures NewestFirst(r)
    ensures multiset(r) == multiset(s)
  {
    if s == [] then []
    else
      assert s == [s[0]] + s[1..];
      Insert(s[0], SortNewestFirst(s[1..]))
  }

  lemma PrefixSuffixMultiset(s: seq<Question>, k: nat)
    requires k <= |s|
    ensures multiset(s[..k]) + multiset(s[k..]) == multiset(s)
  {
    assert s == s[..k] + s[k..];
  }

  // ---------------------------------------------------------------------
  // IndexView.get_queryset

  /**
    The latest published questions, newest first, at most five: every one was
    published by `now` and is a row of the table.
   */
  function Index(qs: seq<Question>, now: int): (r: seq<Question>)
    ensures |r| == Min(IndexSize, |Published(qs, now)|)
    ensures forall q :: q in r ==> q in qs && q.pubDate <= now
    ensures NewestFirst(r)
    ensures multiset(r) <= multiset(Published(qs, now))
  {
    var published := Published(qs, now);
    var newest := SortNewestFirst(published);
    var k := Min(IndexSize, |newest|);
    assert |newest| == |published| by {
      assert |multiset(newest)| == |multiset(published)|;
    }
    SortedPrefix(newest, k);
    newest[..k]
  }

  /** A prefix of a newest-first sequence is newest first and drawn from it. */
  lemma SortedPrefix(s: seq<Question>, k: nat)
    requires NewestFirst(s) && k <= |s|
    ensures NewestFirst(s[..k])
    ensures multiset(s[..k]) <= multiset(s)
    ensures forall q :: q in s[..k] ==> q in multiset(s)
  {
    PrefixSuffixMultiset(s, k);
  }

  /**
    The index holds the most recent published questions: every published row it
    leaves out is no newer than any row it shows.
   */
  lemma {:induction false} IndexIsMostRecent(qs: seq<Question>, now: int)
    ensures forall x, y ::
              x in multiset(Published(qs, now)) - multiset(Index(qs, now)) && y in Index(qs, now)
              ==> x.pubDate <= y.pubDate
  {
    var newest := SortNewestFirst(Published(qs, now));
    var k := Min(IndexSize, |newest|);
    assert Index(qs, now) == newest[..k];
    PrefixIsNewest(newest, k);
  }

  /** A prefix of a newest-first sequence is no older than what it leaves behind. */
  lemma PrefixIsNewest(s: seq<Question>, k: nat)
    requires NewestFirst(s) && k <= |s|
    ensures forall x, y :: x in multiset(s) - multiset(s[..k]) && y in s[..k] ==> x.pubDate <= y.pubDate
  {
    PrefixSuffixMultiset(s, k);
    forall x, y | x in multiset(s) - multiset(s[..k]) && y in s[..k]
      ensures x.pubDate <= y.pubDate
    {
      assert x in multiset(s[k..]);
      var j :| k <= j < |s| && s[j] == x;
      var i :| 0 <= i < k && s[i] == y;
    }
  }

  /** With at most five published questions, the index shows every one of them. */
  lemma IndexShowsAllWhenFew(qs: seq<Question>, now: int)
    requires |Published(qs, now)| <= IndexSize
    ensures multiset(Index(qs, now)) == multiset(Published(qs, now))
  {
    var newest := SortNewestFirst(Published(qs, now));
    assert Index(qs, now) == newest[..|newest|] == newest;
  }

  /** With no published question, the index is empty. */
  lemma IndexEmptyWhenNothingPublished(qs: seq<Question>, now: int)
    requires forall q :: q in qs ==> q.pubDate > now
    ensures Index(qs, now) == []
  {
    assert multiset(Published(qs, now)) == multiset{};
  }

  /** Two past questions, published 30 and 40 days before `now`, appear newest first. */
  lemma IndexShowsTwoPastNewestFirst()
    ensures Index([Question(2, "Past question 2", -40), Question(1, "Past question 1", -30)], 0)
            == [Question(1, "Past question 1", -30), Question(2, "Past question 2", -40)]
  {
    var q1 := Question(1, "Past question 1", -30);
    var q2 := Question(2, "Past question 2", -40);
    assert [q2, q1][1..] == [q1] && [q1][1..] == [];
    assert Published([q1], 0) == [q1];
    assert Published([q2, q1], 0) == [q2, q1];
    assert SortNewestFirst([q1]) == [q1];
    assert Insert(q2, []) == [q2];
    assert Insert(q2, [q1]) == [q1, q2];
    assert SortNewestFirst([q2, q1]) == [q1, q2];
    assert Index([q2, q1], 0) == [q1, q2][..2];
  }

  /** A question dated after `now` is left out of the index, beside a past one. */
  lemma IndexLeavesOutFuture()
    ensures Index([Question(3, "Future question", 30), Question(1, "Past question", -30)], 0)
            == [Question(1, "Past question", -30)]
  {
    var q1 := Question(1, "Past question", -30);
    var future := Question(3, "Future question", 30);
    assert [future, q1][1..] == [q1] && [q1][1..] == [];
    assert Published([q1], 0) == [q1];
    assert Published([future, q1], 0) == [q1];
    assert SortNewestFirst([q1]) == [q1];
    assert Index([future, q1], 0) == [q1][..1];
  }

  // ---------------------------------------------------------------------
  // DetailView.get_queryset and the primary-key lookup

  /** The first row with primary key `id`, if any; with unique keys, the row. */
  function FindQuestion(qs: seq<Question>, id: nat): (r: Option<Question>)
    ensures r.Some? ==> r.value in qs && r.value.id == id
    ensures r.None? <==> forall q :: q in qs ==> q.id != id
  {
    if qs == [] then None
    else if qs[0].id == id then Some(qs[0])
    else FindQuestion(qs[1..], id)
  }

  /** The detail page's question: found only among the questions published at `now`. */
  function Detail(qs: seq<Question>, id: nat, now: int): (r: Option<Question>)
    ensures r.Some? ==> r.value in qs && r.value.id == id && r.value.pubDate <= now
    ensures r.None? <==> forall q :: q in qs && q.id == id ==> q.pubDate > now
  {
    FindQuestion(Published(qs, now), id)
  }

  lemma UniqueIdsPin(qs: seq<Question>, a: Question, b: Question)
    requires UniqueQuestionIds(qs)
    requires a in qs && b in qs && a.id == b.id
    ensures a == b
  {
    var i :| 0 <= i < |qs| && qs[i] == a;
    var j :| 0 <= j < |qs| && qs[j] == b;
  }

  /** A question published by `now` is found by its primary key, and is that question. */
  lemma DetailFindsPublished(qs: seq<Question>, q: Question, now: int)
    requires UniqueQuestionIds(qs)
    requires q in qs && q.pubDate <= now
    ensures Detail(qs, q.id, now) == Some(q)
  {
    var r := Detail(qs, q.id, now);
    assert r.Some?;
    UniqueIdsPin(qs, r.value, q);
  }

  /** A question whose publication date is still to come is not found. */
  lemma DetailHidesFuture(qs: seq<Question>, q: Question, now: int)
    requires UniqueQuestionIds(qs)
    requires q in qs && q.pubDate > now
    ensures Detail(qs, q.id, now) == None
  {
    forall p | p in qs && p.id == q.id
      ensures p.pubDate > now
    {
      UniqueIdsPin(qs, p, q);
    }
  }

  /** Every question the index shows has a detail page. */
  lemma IndexedQuestionsHaveDetail(qs: seq<Question>, q: Question, now: int)
    requires UniqueQuestionIds(qs)
    requires q in Index(qs, now)
    ensures Detail(qs, q.id, now) == Some(q)
  {
    DetailFindsPublished(qs, q, now);
  }

  // ---------------------------------------------------------------------
  // vote

  /** `request.POST["choice"]`: absent, a number, or text that is not a number. */
  datatype ChoiceField = NoChoice | ChoicePk(pk: int) | NotANumber

  /** How `vote` ends. */
  datatype VoteOutcome =
    | QuestionNotFound                      // get_object_or_404 raised Http404
    | ChoiceNotSelected(question: Question) // detail page shown again with an error message
    | MalformedChoice                       // the ORM's ValueError, which vote does not catch
    | Recorded(question: Question, choice: nat) // votes incremented; redirect to the results page

  /** The index of the first choice with primary key `pk` that belongs to question `qid`. */
  function FindChoice(cs: seq<Choice>, qid: nat, pk: int): (r: Option<nat>)
    ensures r.Some? ==> r.value < |cs| && cs[r.value].id == pk && cs[r.value].question == qid
    ensures r.None? <==> forall i :: 0 <= i < |cs| ==> !(cs[i].id == pk && cs[i].question == qid)
  {
    if cs == [] then None
    else if cs[0].id == pk && cs[0].question == qid then Some(0)
    else
      var r := FindChoice(cs[1..], qid, pk);
      if r.None? then None else Some(r.value + 1)
  }

  /** Question `qid` has a choice with primary key `pk`. */
  predicate HasChoice(cs: seq<Choice>, qid: nat, pk: int)
  {
    exists i :: 0 <= i < |cs| && cs[i].id == pk && cs[i].question == qid
  }

  function TotalVotes(cs: seq<Choice>): int
  {
    if cs == [] then 0 else cs[0].votes + TotalVotes(cs[1..])
  }

  /** One more vote for the choice at index `k` raises the total by exactly one. */
  lemma {:induction false} TotalVotesAfterVote(cs: seq<Choice>, k: nat)
    requires k < |cs|
    ensures TotalVotes(cs[k := cs[k].(votes := cs[k].votes + 1)]) == TotalVotes(cs) + 1
  {
    var cs' := cs[k := cs[k].(votes := cs[k].votes + 1)];
    if k > 0 {
      TotalVotesAfterVote(cs[1..], k - 1);
      assert cs'[1..] == cs[1..][k - 1 := cs[k].(votes := cs[k].votes + 1)];
    } else {
      assert cs'[1..] == cs[1..];
    }
  }

  /** The question and choice tables, as `vote` reads and writes them. */
  class PollStore {
    var questions: seq<Question>
    var choices: seq<Choice>

    /** Primary keys are unique in both tables. */
    ghost predicate Valid()
      reads this
    {
      UniqueQuestionIds(questions) && UniqueChoiceIds(choices)
    }

    constructor (questions: seq<Question>, choices: seq<Choice>)
      requires UniqueQuestionIds(questions) && UniqueChoiceIds(choices)
      ensures Valid()
      ensures this.questions == questions && this.choices == choices
    {
      this.questions := questions;
      this.choices := choices;
    }

    /**
      `vote(request, question_id)`. The question is looked up by primary key
      alone, published or not. On success the chosen choice's `votes` goes up
      by one and nothing else changes; on every other outcome no row changes.
     */
    method Vote(questionId: nat, field: ChoiceField) returns (outcome: VoteOutcome)
      requires Valid()
      modifies this
      ensures Valid()
      ensures questions == old(questions)
      ensures outcome.QuestionNotFound? <==> (forall q :: q in questions ==> q.id != questionId)
      ensures outcome.MalformedChoice? <==>
                (exists q :: q in questions && q.id == questionId) && field.NotANumber?
      ensures outcome.ChoiceNotSelected? <==>
                && (exists q :: q in questions && q.id == questionId)
                && (field.NoChoice? || (field.ChoicePk? && !HasChoice(old(choices), questionId, field.pk)))
      ensures outcome.Recorded? <==>
                && (exists q :: q in questions && q.id == questionId)
                && field.ChoicePk? && HasChoice(old(choices), questionId, field.pk)
      ensures (outcome.ChoiceNotSelected? || outcome.Recorded?) ==>
                outcome.question in questions && outcome.question.id == questionId
      ensures outcome.Recorded? ==> field.ChoicePk? && outcome.choice == field.pk
      ensures |choices| == |old(choices)|
      ensures forall i :: 0 <= i < |choices| ==>
                choices[i] == if outcome.Recorded? && old(choices)[i].id == outcome.choice
                              then old(choices)[i].(votes := old(choices)[i].votes + 1)
                              else old(choices)[i]
      ensures TotalVotes(choices) == TotalVotes(old(choices)) + (if outcome.Recorded? then 1 else 0)
    {
      var question := FindQuestion(questions, questionId);
      if question.None? {
        return QuestionNotFound;
      }
      match field
      case NoChoice =>
        outcome := ChoiceNotSelected(question.value);
      case NotANumber =>
        outcome := MalformedChoice;
      case ChoicePk(pk) =>
        var k := FindChoice(choices, questionId, pk);
        if k.None? {
          outcome := ChoiceNotSelected(question.value);
        } else {
          var selected := choices[k.value];
          TotalVotesAfterVote(choices, k.value);
          choices := choices[k.value := selected.(votes := selected.votes + 1)];
          outcome := Recorded(question.value, pk);
        }
    }
  }
}
