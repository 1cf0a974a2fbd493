/** The per-session answer cache of the chat page: a question is looked up
    under its lower-cased text, and only a miss costs an upstream query.
    The session store is an insertion-ordered dictionary (OrderedMap); a
    miss stores the answer's text under the question's key and the full
    response under the reserved key `LastKey`, in that order. */
module AnswerCache {
  import opened Wrappers
  import opened Text
  import opened OrderedMap

  /** What the retrieval and generation pipeline returns: the answer text
      and the metadata beside it (source passages, scores), kept opaque. */
  datatype Response = Response(answer: string, metadata: seq<string>)

  /** `str(response)`: the answer text of a response. */
  function Str(r: Response): string
  {
    r.answer
  }

  /** A session value: either the text stored under a question's key, or the
      full response stored under `LastKey`. */
  datatype Stored = AnswerText(text: string) | FullResponse(response: Response)

  /** `str(value)`, which is how the page shows a reply. */
  function Display(v: Stored): string
  {
    match v
    case AnswerText(t) => t
    case FullResponse(r) => Str(r)
  }

  /** What a miss shows, `str(response)`, is what a later hit on the stored
      `str(response)` shows. */
  lemma DisplayHitMatchesMiss(r: Response)
    ensures Display(AnswerText(Str(r))) == Display(FullResponse(r))
  {
  }

  /** The reserved session key of the most recent full response. */
  const LastKey: string := "last_llama_response"

  datatype QueryError = UpstreamQueryFailed(cause: string)

  /** The query engine as an oracle: what the service answers to a prompt
      on its n-th call (a later call may answer differently, or fail). */
  type Oracle = (string, nat) -> Result<Response, QueryError>

  type Entries = seq<(string, Stored)>

  /** The outcome of asking one question: the session afterwards, the reply
      (or the error the query raised), and the number of upstream calls made
      so far. */
  datatype Step = Step(entries: Entries, reply: Result<Stored, QueryError>, calls: nat)

  /** One pass through the cache block of the page for a non-empty prompt.
      It makes at most one upstream call, and none exactly on a hit. */
  function AskStep(es: Entries, prompt: string, oracle: Oracle, calls: nat): (s: Step)
    ensures s.calls == calls <==> Find(es, Lower(prompt)).Some?
    ensures s.calls <= calls + 1
  {
    var key := Lower(prompt);
    match Find(es, key)
    case Some(v) => Step(es, Ok(v), calls)
    case None =>
      match oracle(prompt, calls)
      case Err(e) => Step(es, Err(e), calls + 1)
      case Ok(r) =>
        var es' := Put(Put(es, key, AnswerText(Str(r))), LastKey, FullResponse(r));
        Step(es', Ok(FullResponse(r)), calls + 1)
  }

  /** A hit returns the stored value, makes no upstream call and leaves the
      session as it was. */
  lemma AskHit(es: Entries, prompt: string, oracle: Oracle, calls: nat)
    requires Find(es, Lower(prompt)).Some?
    ensures AskStep(es, prompt, oracle, calls) == Step(es, Ok(Find(es, Lower(prompt)).value), calls)
  {
  }

  /** A miss makes exactly one upstream call, with the prompt as typed. If
      it fails nothing is stored. If it succeeds the key maps to the answer
      text, `LastKey` to the full response, and every other key is
      unchanged; when the key is `LastKey` itself the second store wins. */
  lemma AskMiss(es: Entries, prompt: string, oracle: Oracle, calls: nat, j: string)
    requires Find(es, Lower(prompt)).None?
    ensures var s := AskStep(es, prompt, oracle, calls);
            && s.calls == calls + 1
            && (oracle(prompt, calls).Err? ==> s.entries == es && s.reply == Err(oracle(prompt, calls).error))
            && (oracle(prompt, calls).Ok? ==>
                  var r := oracle(prompt, calls).value;
                  && s.reply == Ok(FullResponse(r))
                  && Find(s.entries, j) ==
                       if j == LastKey then Some(FullResponse(r))
                       else if j == Lower(prompt) then Some(AnswerText(Str(r)))
                       else Find(es, j))
  {
    var key := Lower(prompt);
    if oracle(prompt, calls).Ok? {
      var r := oracle(prompt, calls).value;
      PutFind(es, key, AnswerText(Str(r)), j);
      PutFind(Put(es, key, AnswerText(Str(r))), LastKey, FullResponse(r), j);
    }
  }

  /** Keys are only ever added (a key goes from absent to populated and never
      back), a successful ask leaves its key populated, and the keys stay
      unique. */
  lemma AskKeys(es: Entries, prompt: string, oracle: Oracle, calls: nat)
    requires UniqueKeys(es)
    ensures var s := AskStep(es, prompt, oracle, calls);
            && Keys(es) <= Keys(s.entries)
            && (s.reply.Ok? ==> Lower(prompt) in Keys(s.entries))
            && UniqueKeys(s.entries)
  {
    var key := Lower(prompt);
    FindKeys(es, key);
    if Find(es, key).None? && oracle(prompt, calls).Ok? {
      var r := oracle(prompt, calls).value;
      PutKeys(es, key, AnswerText(Str(r)));
      PutKeys(Put(es, key, AnswerText(Str(r))), LastKey, FullResponse(r));
      PutUnique(es, key, AnswerText(Str(r)));
      PutUnique(Put(es, key, AnswerText(Str(r))), LastKey, FullResponse(r));
    }
  }

  /** Questions that differ only in case share one entry: once `p` has been
      answered, asking `q` makes no upstream call, leaves the session as it
      is and shows the same text. */
  lemma CaseInsensitiveReuse(es: Entries, p: string, q: string, oracle: Oracle, calls: nat)
    requires Lower(p) == Lower(q)
    requires AskStep(es, p, oracle, calls).reply.Ok?
    ensures var s1 := AskStep(es, p, oracle, calls);
            var s2 := AskStep(s1.entries, q, oracle, s1.calls);
            && s2.calls == s1.calls
            && s2.entries == s1.entries
            && s2.reply.Ok?
            && Display(s2.reply.value) == Display(s1.reply.value)
  {
    if Find(es, Lower(p)).None? {
      AskMiss(es, p, oracle, calls, Lower(p));
    }
  }

  /** A failed query is not cached: the session is unchanged and asking the
      same key again makes another upstream call. */
  lemma FailureIsRetried(es: Entries, p: string, q: string, oracle: Oracle, calls: nat)
    requires Lower(p) == Lower(q)
    requires AskStep(es, p, oracle, calls).reply.Err?
    ensures var s1 := AskStep(es, p, oracle, calls);
            var s2 := AskStep(s1.entries, q, oracle, s1.calls);
            && s1.entries == es
            && s1.calls == calls + 1
            && s2.calls == s1.calls + 1
  {
  }

  /** The collision, as written: right after a question `p` misses and is
      answered, asking any `q` that lower-cases to the reserved key (such as
      "LAST_LLAMA_RESPONSE") is a hit that returns `p`'s full response, with
      no upstream call and the session left as it is. */
  lemma CollisionReturnsOtherAnswer(es: Entries, p: string, q: string, oracle: Oracle, calls: nat)
    requires Find(es, Lower(p)).None?
    requires oracle(p, calls).Ok?
    requires Lower(q) == LastKey
    ensures var s1 := AskStep(es, p, oracle, calls);
            var s2 := AskStep(s1.entries, q, oracle, s1.calls);
            && s2.calls == s1.calls
            && s2.entries == s1.entries
            && s2.reply == Ok(FullResponse(oracle(p, calls).value))
  {
    AskMiss(es, p, oracle, calls, LastKey);
  }

  /** Asking the questions `prompts` one after another: the session and the
      call count at the end. */
  function AskAll(es: Entries, prompts: seq<string>, oracle: Oracle, calls: nat): (Entries, nat)
    decreases |prompts|
  {
    if prompts == [] then (es, calls)
    else
      var s := AskStep(es, prompts[0], oracle, calls);
      AskAll(s.entries, prompts[1..], oracle, s.calls)
  }

  /** The normalised keys of a list of questions. */
  function NormalKeys(prompts: seq<string>): set<string>
  {
    if prompts == [] then {} else {Lower(prompts[0])} + NormalKeys(prompts[1..])
  }

  /** At most one upstream query per distinct normalised question: when the
      service always answers and no question collides with `LastKey`, the
      number of upstream calls equals the number of distinct normalised
      questions that were not already in the session. */
  lemma {:induction false} CallsCountDistinctKeys(es: Entries, prompts: seq<string>, oracle: Oracle, calls: nat)
    requires forall p, n :: oracle(p, n).Ok?
    requires forall i :: 0 <= i < |prompts| ==> Lower(prompts[i]) != LastKey
    ensures AskAll(es, prompts, oracle, calls).1 == calls + |NormalKeys(prompts) - Keys(es)|
    decreases |prompts|
  {
    if prompts != [] {
      var key := Lower(prompts[0]);
      var rest := prompts[1..];
      var s := AskStep(es, prompts[0], oracle, calls);
      CallsCountDistinctKeys(s.entries, rest, oracle, s.calls);
      assert forall i :: 0 <= i < |rest| ==> Lower(rest[i]) != LastKey by {
        forall i | 0 <= i < |rest| ensures Lower(rest[i]) != LastKey {
          assert rest[i] == prompts[i + 1];
        }
      }
      NormalKeysAvoid(rest, LastKey);
      FindKeys(es, key);
      if key !in Keys(es) {
        var r := oracle(prompts[0], calls).value;
        PutKeys(es, key, AnswerText(Str(r)));
        PutKeys(Put(es, key, AnswerText(Str(r))), LastKey, FullResponse(r));
        NewKeyCounted(NormalKeys(rest), Keys(es), key);
      } else {
        assert NormalKeys(prompts) - Keys(es) == NormalKeys(rest) - Keys(es);
      }
    }
  }

  /** Set arithmetic for one miss: the new key counts once, and the reserved
      key that is added beside it is never one of the questions' keys. */
  lemma NewKeyCounted(later: set<string>, known: set<string>, key: string)
    requires key !in known && LastKey !in later
    ensures |({key} + later) - known| == 1 + |later - (known + {key} + {LastKey})|
  {
    assert ({key} + later) - known == {key} + (later - (known + {key} + {LastKey}));
  }

  /** A key that no question normalises to is not among the normalised keys. */
  lemma {:induction false} NormalKeysAvoid(prompts: seq<string>, k: string)
    requires forall i :: 0 <= i < |prompts| ==> Lower(prompts[i]) != k
    ensures k !in NormalKeys(prompts)
  {
    if prompts != [] {
      NormalKeysAvoid(prompts[1..], k) by {
        forall i | 0 <= i < |prompts| - 1 ensures Lower(prompts[1..][i]) != k {
          assert prompts[1..][i] == prompts[i + 1];
        }
      }
    }
  }
}
