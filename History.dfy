/** Which session entries the page lists as earlier questions: all of them
    except the slot of the last full response and, when a question has just
    been submitted, the entry of that question itself (it is shown above). */
module History {
  import opened Wrappers
  import opened Text
  import opened OrderedMap
  import opened AnswerCache

  /** Python truthiness of the chat input: no input and the empty string are
      both false. */
  predicate Truthy(prompt: Option<string>)
  {
    prompt.Some? && prompt.value != ""
  }

  /** Whether the session key `question` is listed. */
  predicate Listed(question: string, prompt: Option<string>)
  {
    question != LastKey && !(Truthy(prompt) && Lower(question) == Lower(prompt.value))
  }

  /** The listed entries, in session order. */
  function Filtered(es: Entries, prompt: Option<string>): (listed: Entries)
    ensures |listed| <= |es|
    ensures forall i :: 0 <= i < |listed| ==> Listed(listed[i].0, prompt)
  {
    if es == [] then []
    else (if Listed(es[0].0, prompt) then [es[0]] else []) + Filtered(es[1..], prompt)
  }

  /** Filtering keeps the order: it distributes over concatenation. */
  lemma {:induction false} FilteredConcat(a: Entries, b: Entries, prompt: Option<string>)
    ensures Filtered(a + b, prompt) == Filtered(a, prompt) + Filtered(b, prompt)
  {
    if a != [] {
      FilteredConcat(a[1..], b, prompt);
      assert (a + b)[1..] == a[1..] + b;
    } else {
      assert a + b == b;
    }
  }

  /** An entry is listed exactly when it is in the session and its key passes
      the filter. */
  lemma {:induction false} FilteredMember(es: Entries, prompt: Option<string>, e: (string, Stored))
    ensures e in Filtered(es, prompt) <==> e in es && Listed(e.0, prompt)
  {
    if es != [] {
      FilteredMember(es[1..], prompt, e);
      assert es == [es[0]] + es[1..];
    }
  }

  /** Each listed key carries its session value, and no other key is
      listed. */
  lemma {:induction false} FilteredFind(es: Entries, prompt: Option<string>, k: string)
    ensures Find(Filtered(es, prompt), k) == if Listed(k, prompt) then Find(es, k) else None
  {
    if es != [] {
      FilteredFind(es[1..], prompt, k);
      var f := Filtered(es[1..], prompt);
      if Listed(es[0].0, prompt) {
        assert Filtered(es, prompt) == [es[0]] + f;
      } else {
        assert Filtered(es, prompt) == f;
      }
    }
  }

  /** The listing has unique keys when the session does. */
  lemma {:induction false} FilteredUnique(es: Entries, prompt: Option<string>)
    requires UniqueKeys(es)
    ensures UniqueKeys(Filtered(es, prompt))
  {
    if es != [] {
      assert UniqueKeys(es[1..]);
      FilteredUnique(es[1..], prompt);
      if Listed(es[0].0, prompt) {
        var f := Filtered(es, prompt);
        forall j | 0 < j < |f|
          ensures f[0].0 != f[j].0
        {
          FilteredMember(es[1..], prompt, f[j]);
        }
      }
    }
  }

  /** The question just submitted is never in the listing, in whatever case
      it was typed, and neither is the last-response slot. */
  lemma CurrentQuestionNotListed(es: Entries, p: string)
    requires p != ""
    ensures Lower(p) !in Keys(Filtered(es, Some(p)))
    ensures LastKey !in Keys(Filtered(es, Some(p)))
  {
    LowerIdempotent(p);
    FilteredFind(es, Some(p), Lower(p));
    FilteredFind(es, Some(p), LastKey);
    FindKeys(Filtered(es, Some(p)), Lower(p));
    FindKeys(Filtered(es, Some(p)), LastKey);
  }
}
