/**
 * One run of the auto-posting bot: pick the next topic, fetch a headline
 * for it, skip it if it was seen before, record it, turn it into a post,
 * remember the post as the last one generated, and publish it.
 *
 * The three outside services (headline search, text generation, social
 * publishing) are not modelled; a run takes what they returned as inputs.
 */
module Bot {
  import opened Rotation
  import opened Recency

  datatype Option<T> = None | Some(value: T)

  /** The first article the headline service returned for a topic. */
  datatype Article = Article(title: string, description: string)

  /** How a run ended, with the headline and the post it got as far as. */
  datatype Outcome =
    | NoNews
    | Duplicate(news: string)
    | GenFailed(news: string)
    | Posted(news: string, tweet: string)
    | PublishFailed(news: string, tweet: string)

  /** The topic a run asked the headline service about, and how the run ended. */
  datatype Report = Report(topic: string, outcome: Outcome)

  /** Everything a run reads and writes: the topic cursor, the recency set and the last post. */
  datatype BotState = BotState(cursor: nat, posted: seq<string>, lastTweet: string, lastNews: string)

  datatype StepResult = StepResult(state: BotState, report: Report)

  /** What the three services return during one run. */
  datatype Inputs = Inputs(fetched: Option<Article>, generated: Option<string>, publishOk: bool)

  const Catalog: seq<string> := ["sports", "technology", "entertainment"]
  const MaxHeadlines: nat := 50

  /** The headline string of an article: its title and description joined by " - ". */
  function FormatHeadline(a: Article): (news: string)
    ensures |news| == |a.title| + 3 + |a.description|
    ensures news[..|a.title|] == a.title
    ensures news[|a.title|..|a.title| + 3] == " - "
    ensures news[|a.title| + 3..] == a.description
  {
    a.title + " - " + a.description
  }

  /** A generated post counts only when there is one and it is not the empty string. */
  predicate Usable(generated: Option<string>): (ok: bool)
    ensures ok <==> generated != None && generated != Some("")
  {
    generated.Some? && generated.value != ""
  }

  /** The state every run starts from and keeps. */
  ghost predicate Inv(topics: seq<string>, cap: nat, st: BotState)
  {
    |topics| > 0 && st.cursor < |topics| && cap >= 1 && |st.posted| <= cap && Distinct(st.posted)
  }

  /**
   * One run as a function of the state before it and of what the services
   * returned. The cursor moves on every path; the recency set changes only
   * once a new headline passed the duplicate test; the last post changes
   * only once a usable post was generated, and then whatever publishing did.
   */
  function Step(topics: seq<string>, cap: nat, st: BotState, fetched: Option<Article>,
                generated: Option<string>, publishOk: bool): (r: StepResult)
    requires st.cursor < |topics|
    ensures r.report.topic == topics[st.cursor]
    ensures r.state.cursor == Advance(st.cursor, |topics|)
    ensures r.report.outcome.NoNews? <==> fetched.None?
    ensures fetched.Some? ==> r.report.outcome.news == FormatHeadline(fetched.value)
    ensures r.report.outcome.Duplicate? <==> fetched.Some? && FormatHeadline(fetched.value) in st.posted
    ensures r.report.outcome.NoNews? || r.report.outcome.Duplicate? ==>
              r.state.posted == st.posted && r.state.lastTweet == st.lastTweet && r.state.lastNews == st.lastNews
    ensures fetched.Some? && FormatHeadline(fetched.value) !in st.posted ==>
              r.state.posted == Record(st.posted, FormatHeadline(fetched.value), cap)
    ensures r.report.outcome.GenFailed? <==>
              fetched.Some? && FormatHeadline(fetched.value) !in st.posted && !Usable(generated)
    ensures r.report.outcome.GenFailed? ==> r.state.lastTweet == st.lastTweet && r.state.lastNews == st.lastNews
    ensures r.report.outcome.Posted? || r.report.outcome.PublishFailed? ==>
              Usable(generated) && r.report.outcome.tweet == generated.value &&
              r.state.lastTweet == generated.value && r.state.lastNews == r.report.outcome.news
    ensures r.report.outcome.Posted? <==>
              fetched.Some? && FormatHeadline(fetched.value) !in st.posted && Usable(generated) && publishOk
  {
    var topic := topics[st.cursor];
    var moved := st.(cursor := Advance(st.cursor, |topics|));
    match fetched
    case None => StepResult(moved, Report(topic, NoNews))
    case Some(article) =>
      var news := FormatHeadline(article);
      if news in st.posted then
        StepResult(moved, Report(topic, Duplicate(news)))
      else
        var recorded := moved.(posted := Record(st.posted, news, cap));
        if !Usable(generated) then
          StepResult(recorded, Report(topic, GenFailed(news)))
        else
          var tweet := generated.value;
          var shown := recorded.(lastTweet := tweet, lastNews := news);
          if publishOk then StepResult(shown, Report(topic, Posted(news, tweet)))
          else StepResult(shown, Report(topic, PublishFailed(news, tweet)))
  }

  /** Every run keeps the cursor in range and the recency set bounded and duplicate-free. */
  lemma StepKeepsInv(topics: seq<string>, cap: nat, st: BotState, fetched: Option<Article>,
                     generated: Option<string>, publishOk: bool)
    requires Inv(topics, cap, st)
    ensures Inv(topics, cap, Step(topics, cap, st, fetched, generated, publishOk).state)
  {
  }

  /**
   * A headline that passed the duplicate test is in the recency set after the
   * run, however generation and publishing went, so it is skipped next time.
   */
  lemma NewHeadlineIsRecorded(topics: seq<string>, cap: nat, st: BotState, fetched: Option<Article>,
                              generated: Option<string>, publishOk: bool)
    requires Inv(topics, cap, st)
    requires fetched.Some? && FormatHeadline(fetched.value) !in st.posted
    ensures FormatHeadline(fetched.value) in Step(topics, cap, st, fetched, generated, publishOk).state.posted
  {
    RecordKeepsInvariant(st.posted, FormatHeadline(fetched.value), cap);
  }

  /**
   * Publishing is the last thing a run does and nothing is rolled back when
   * it fails: the state after a failed publish equals the state after a
   * successful one.
   */
  lemma PublishFailureKeepsState(topics: seq<string>, cap: nat, st: BotState, fetched: Option<Article>,
                                 generated: Option<string>)
    requires st.cursor < |topics|
    ensures Step(topics, cap, st, fetched, generated, false).state == Step(topics, cap, st, fetched, generated, true).state
  {
  }

  /**
   * A new headline that went through a run is skipped as a duplicate when the
   * next run fetches it again, whatever the services returned; that second
   * run changes nothing but the cursor.
   */
  lemma {:induction false} RepeatIsSkipped(topics: seq<string>, cap: nat, st: BotState, article: Article,
                                           generated: Option<string>, publishOk: bool,
                                           generated2: Option<string>, publishOk2: bool)
    requires Inv(topics, cap, st)
    requires FormatHeadline(article) !in st.posted
    ensures var first := Step(topics, cap, st, Some(article), generated, publishOk).state;
            var second := Step(topics, cap, first, Some(article), generated2, publishOk2);
            second.report.outcome == Duplicate(FormatHeadline(article)) &&
            second.state == first.(cursor := Advance(first.cursor, |topics|))
  {
    StepKeepsInv(topics, cap, st, Some(article), generated, publishOk);
    NewHeadlineIsRecorded(topics, cap, st, Some(article), generated, publishOk);
  }

  /** A sequence of runs, each fed the services' results for that run. */
  function Replay(topics: seq<string>, cap: nat, st: BotState, runs: seq<Inputs>): (r: (BotState, seq<Report>))
    requires st.cursor < |topics|
    ensures r.0.cursor < |topics|
    ensures |r.1| == |runs|
    decreases |runs|
  {
    if runs == [] then (st, [])
    else
      var one := Step(topics, cap, st, runs[0].fetched, runs[0].generated, runs[0].publishOk);
      var rest := Replay(topics, cap, one.state, runs[1..]);
      (rest.0, [one.report] + rest.1)
  }

  /** The topics of a report list. */
  function Topics(reports: seq<Report>): (ts: seq<string>)
    ensures |ts| == |reports|
    ensures forall i :: 0 <= i < |reports| ==> ts[i] == reports[i].topic
  {
    seq(|reports|, i requires 0 <= i < |reports| => reports[i].topic)
  }

  /**
   * Whatever the services return, `k` runs ask about the topics of the
   * rotation schedule in order and leave the cursor `k` steps further: a run
   * that found no news or a duplicate still consumes its topic.
   */
  lemma {:induction false} ReplayFollowsSchedule(topics: seq<string>, cap: nat, st: BotState, runs: seq<Inputs>)
    requires st.cursor < |topics|
    ensures Topics(Replay(topics, cap, st, runs).1) == Schedule(topics, st.cursor, |runs|)
    ensures Replay(topics, cap, st, runs).0.cursor == CursorAfter(st.cursor, |topics|, |runs|)
    decreases |runs|
  {
    if runs != [] {
      var one := Step(topics, cap, st, runs[0].fetched, runs[0].generated, runs[0].publishOk);
      ReplayFollowsSchedule(topics, cap, one.state, runs[1..]);
      var all := Replay(topics, cap, st, runs).1;
      var rest := Replay(topics, cap, one.state, runs[1..]).1;
      assert all == [one.report] + rest;
      assert Topics(all) == [one.report.topic] + Topics(rest);
    }
  }

  /** Any number of runs keeps the invariant. */
  lemma {:induction false} ReplayKeepsInv(topics: seq<string>, cap: nat, st: BotState, runs: seq<Inputs>)
    requires Inv(topics, cap, st)
    ensures Inv(topics, cap, Replay(topics, cap, st, runs).0)
    decreases |runs|
  {
    if runs != [] {
      StepKeepsInv(topics, cap, st, runs[0].fetched, runs[0].generated, runs[0].publishOk);
      var one := Step(topics, cap, st, runs[0].fetched, runs[0].generated, runs[0].publishOk);
      ReplayKeepsInv(topics, cap, one.state, runs[1..]);
    }
  }

  /**
   * A concrete run: on the "technology" turn the headline service returns
   * ("AI breakthrough", "new model released") and the generator returns a
   * post; that post is what is published and what is remembered.
   */
  lemma TechnologyRunExample(posted: seq<string>, lastTweet: string, lastNews: string)
    requires "AI breakthrough - new model released" !in posted
    ensures var tweet := "Big AI news just dropped! \U{1F916}";
            var news := "AI breakthrough - new model released";
            var r := Step(Catalog, MaxHeadlines, BotState(1, posted, lastTweet, lastNews),
                          Some(Article("AI breakthrough", "new model released")), Some(tweet), true);
            r.report == Report("technology", Posted(news, tweet)) &&
            r.state.lastTweet == tweet && r.state.lastNews == news && r.state.cursor == 2
  {
    assert FormatHeadline(Article("AI breakthrough", "new model released")) == "AI breakthrough - new model released";
    assert Catalog[1] == "technology";
  }

  /** The bot's process-wide state: topic rotation, recency set and the last post shown. */
  class Orchestrator {
    const rotator: TopicRotator
    const recent: RecencySet
    var lastGeneratedTweet: string
    var lastGeneratedNews: string

    ghost predicate Valid()
      reads this, rotator, recent
      ensures Valid() ==> Inv(rotator.topics, recent.capacity, State())
    {
      rotator.Valid() && recent.Valid()
    }

    ghost function State(): BotState
      reads this, rotator, recent
    {
      BotState(rotator.cursor, recent.items, lastGeneratedTweet, lastGeneratedNews)
    }

    constructor ()
      ensures Valid() && fresh(rotator) && fresh(recent)
      ensures rotator.topics == Catalog && recent.capacity == MaxHeadlines
      ensures State() == BotState(0, [], "", "")
    {
      rotator := new TopicRotator(Catalog);
      recent := new RecencySet(MaxHeadlines);
      lastGeneratedTweet := "";
      lastGeneratedNews := "";
    }

    /**
     * One run: fetch, skip duplicates, record, generate, remember, publish.
     * The new state and the report are exactly those of `Step`.
     */
    method Run(fetched: Option<Article>, generated: Option<string>, publishOk: bool) returns (report: Report)
      requires Valid()
      modifies this, rotator, recent
      ensures Valid()
      ensures StepResult(State(), report) ==
              Step(rotator.topics, recent.capacity, old(State()), fetched, generated, publishOk)
    {
      var topic := rotator.Next();
      if fetched.None? {
        return Report(topic, NoNews);
      }
      var news := FormatHeadline(fetched.value);
      var duplicate := recent.Contains(news);
      if duplicate {
        return Report(topic, Duplicate(news));
      }
      recent.Store(news);
      if !Usable(generated) {
        return Report(topic, GenFailed(news));
      }
      var tweet := generated.value;
      lastGeneratedTweet := tweet;
      lastGeneratedNews := news;
      if publishOk {
        report := Report(topic, Posted(news, tweet));
      } else {
        report := Report(topic, PublishFailed(news, tweet));
      }
    }
  }
}
