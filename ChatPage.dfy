/** One run of the chat page script over the state that survives between
    runs: the session store and the query engine. */
module ChatPage {
  import opened Wrappers
  import opened Text
  import opened OrderedMap
  import opened AnswerCache
  import opened History
  import opened Stream

  /** The query engine `setup()` returns. Each call of `Query` is one call
      of the paid upstream service; `calls` counts them and picks the
      oracle's answer. */
  class QueryEngine {
    const oracle: Oracle
    var calls: nat

    constructor (oracle: Oracle)
      ensures this.oracle == oracle && calls == 0
    {
      this.oracle := oracle;
      calls := 0;
    }

    /** `query_engine.query(prompt)`; an `Err` stands for the exception the
        call raises. */
    method Query(prompt: string) returns (outcome: Result<Response, QueryError>)
      modifies this
      ensures calls == old(calls) + 1
      ensures outcome == oracle(prompt, old(calls))
    {
      outcome := oracle(prompt, calls);
      calls := calls + 1;
    }
  }

  /** What one run of the page shows: the chunks the reply is typed out in
      (none when no question was submitted) and the earlier questions with
      their answers (`question_answer_dict`). */
  datatype Page = Page(typed: Option<seq<string>>, history: Entries)

  /** `st.session_state` of one browser session. */
  class Session {
    var entries: Entries

    ghost predicate Valid()
      reads this
    {
      UniqueKeys(entries)
    }

    constructor ()
      ensures Valid() && entries == []
    {
      entries := [];
    }

    /** The cache block: answer `prompt` from the session when its lower-cased
        form is a key, otherwise query the engine once and store the result. */
    method Ask(engine: QueryEngine, prompt: string) returns (reply: Result<Stored, QueryError>)
      requires Valid()
      modifies this, engine
      ensures Valid()
      ensures Step(entries, reply, engine.calls) == AskStep(old(entries), prompt, engine.oracle, old(engine.calls))
    {
      AskKeys(entries, prompt, engine.oracle, engine.calls);
      var key := Lower(prompt);
      var cached := Find(entries, key);
      if cached.Some? {
        reply := Ok(cached.value);
      } else {
        var outcome := engine.Query(prompt);
        if outcome.Err? {
          // the exception leaves the session untouched
          reply := Err(outcome.error);
        } else {
          var response := outcome.value;
          entries := Put(entries, key, AnswerText(Str(response)));
          entries := Put(entries, LastKey, FullResponse(response));
          reply := Ok(FullResponse(response));
        }
      }
    }

    /** The history loop: walk the session entries and copy into a fresh
        dictionary every one the page lists. */
    method ListHistory(prompt: Option<string>) returns (listed: Entries)
      requires Valid()
      ensures listed == Filtered(entries, prompt)
    {
      listed := [];
      for i := 0 to |entries|
        invariant listed == Filtered(entries[..i], prompt)
      {
        var (question, answer) := entries[i];
        FilteredConcat(entries[..i], [entries[i]], prompt);
        assert entries[..i + 1] == entries[..i] + [entries[i]];
        if (Truthy(prompt) && Lower(question) == Lower(prompt.value)) || question == LastKey {
          continue;
        }
        // the session keys are unique, so the question is not listed yet
        assert question !in Keys(entries[..i]);
        FindKeys(entries[..i], question);
        FilteredFind(entries[..i], prompt, question);
        FindKeys(listed, question);
        PutPosition(listed, question, answer);
        listed := Put(listed, question, answer);
      }
      assert entries[..|entries|] == entries;
    }

    /** One run of the script: if a question was submitted, answer it (an
        upstream failure ends the run before anything else is shown), then
        list the earlier questions. */
    method RunPage(engine: QueryEngine, prompt: Option<string>) returns (page: Result<Page, QueryError>)
      requires Valid()
      modifies this, engine
      ensures Valid()
      ensures !Truthy(prompt) ==>
                && entries == old(entries) && engine.calls == old(engine.calls)
                && page == Ok(Page(None, Filtered(entries, prompt)))
      ensures Truthy(prompt) ==>
                var s := AskStep(old(entries), prompt.value, engine.oracle, old(engine.calls));
                && entries == s.entries && engine.calls == s.calls
                && page == match s.reply
                           case Err(e) => Err(e)
                           case Ok(v) => Ok(Page(Some(StreamData(Display(v))), Filtered(entries, prompt)))
    {
      var typed: Option<seq<string>> := None;
      if Truthy(prompt) {
        var reply := Ask(engine, prompt.value);
        if reply.Err? {
          return Err(reply.error);
        }
        typed := Some(StreamData(Display(reply.value)));
      }
      var listed := ListHistory(prompt);
      page := Ok(Page(typed, listed));
    }
  }

  /** Two runs of the page with the same question typed in two cases: only
      the first one queries the service, both show the same answer, and the
      second lists no earlier question, because the only question there is
      the one just asked (or, when that question is a casing of the reserved
      key, its answer text was overwritten by the full response). */
  method AskTwiceInTwoCases(session: Session, engine: QueryEngine, p: string, q: string)
    returns (first: Result<Page, QueryError>, second: Result<Page, QueryError>)
    requires session.Valid() && session.entries == []
    requires p != "" && Lower(p) == Lower(q)
    requires engine.oracle(p, engine.calls).Ok?
    modifies session, engine
    ensures engine.calls == old(engine.calls) + 1
    ensures first.Ok? && second.Ok?
    ensures first.value.typed == second.value.typed
    ensures second.value.history == []
  {
    ghost var r := engine.oracle(p, engine.calls).value;
    ghost var none: Entries := [];
    ghost var one := [(Lower(p), AnswerText(Str(r)))];
    assert Find(none, Lower(p)).None?;
    assert Put(none, Lower(p), AnswerText(Str(r))) == one;
    first := session.RunPage(engine, Some(p));
    CaseInsensitiveReuse([], p, q, engine.oracle, old(engine.calls));
    assert q != "" by { assert |Lower(q)| == |q|; }
    second := session.RunPage(engine, Some(q));
    LowerIdempotent(p);
    if Lower(p) == LastKey {
      // the full response overwrites the answer text in the same slot
      ghost var stored := [(LastKey, FullResponse(r))];
      assert Put(one, LastKey, FullResponse(r)) == stored;
      assert session.entries == stored;
      assert Filtered(stored, Some(q)) == Filtered(stored[1..], Some(q));
    } else {
      ghost var stored := [(Lower(p), AnswerText(Str(r))), (LastKey, FullResponse(r))];
      assert Put(one, LastKey, FullResponse(r)) == [one[0]] + Put(none, LastKey, FullResponse(r));
      assert session.entries == stored;
      assert Filtered(stored, Some(q)) == [] by {
        assert Filtered(stored[1..], Some(q)) == [] by {
          assert stored[1..][1..] == [];
        }
      }
    }
  }
}
