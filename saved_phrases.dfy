/** The saved-phrases store of script.js:153-253: a list of phrase records
    kept under one local-storage key, newest first, with no two records of
    the same text. */
module SavedPhrases {
  import opened Wrappers
  import opened JsText
  import Translation
  import GeminiReply

  /** A saved record. `id` is the clock reading (`Date.now()`) at save time;
      `timestamp` is the display form of the same moment. */
  datatype Phrase = Phrase(id: int, text: string, timestamp: string)

  /** Output texts that are not a translation and must never be saved. */
  const Placeholder := "Sophisticated dialogue will appear here"
  const FailureMarker := "Translation failed"
  /** What the output element shows before any translation, and again after
      a rejected save. */
  const PlaceholderScreen := Placeholder + "..."

  datatype SaveError = NoValidPhrase | AlreadySaved

  function Message(e: SaveError): string {
    match e
    case NoValidPhrase => "No valid phrase to save"
    case AlreadySaved => "Phrase already saved"
  }

  // ----- The guard on the output text (script.js:155-164) -----

  /** The output text, trimmed, if it may be saved: it must not be blank and
      must not hold the placeholder or the failure marker. */
  function CheckSavable(shown: string): (r: Result<string, SaveError>)
    ensures r.Ok? <==>
      !IsBlank(shown) && !Contains(Trim(shown), Placeholder) && !Contains(Trim(shown), FailureMarker)
    ensures r.Ok? ==> r.value == Trim(shown) && r.value != []
    ensures r.Err? ==> r.error == NoValidPhrase
  {
    var text := Trim(shown);
    if text == [] || Contains(text, Placeholder) || Contains(text, FailureMarker) then
      Err(NoValidPhrase)
    else
      Ok(text)
  }

  /** The text a save stores is already its own trim, so saving what is
      shown again checks the same text. */
  lemma CheckSavableIsStable(shown: string)
    requires CheckSavable(shown).Ok?
    ensures CheckSavable(CheckSavable(shown).value) == CheckSavable(shown)
  {
    TrimIdempotent(shown);
  }

  /** The placeholder the output element starts with cannot be saved. */
  lemma PlaceholderIsNotSavable()
    ensures CheckSavable(PlaceholderScreen) == Err(NoValidPhrase)
  {
    var s := PlaceholderScreen;
    assert !IsWhitespace(s[0]) && !IsWhitespace(s[|s| - 1]);
    TrimOfTrimmed(s);
    ContainsMiddle([], Placeholder, "...");
    assert [] + Placeholder + "..." == s;
  }

  /** Whatever failure a translation reports, the message shown cannot be
      saved: it starts with the failure marker, which trimming keeps. */
  lemma FailureMessageIsNotSavable(m: string)
    ensures CheckSavable(Translation.FailurePrefix + m) == Err(NoValidPhrase)
  {
    var s := Translation.FailurePrefix + m;
    var n := |FailureMarker| + 1;
    assert s[0] == 'T' && s[n - 1] == ':';
    TrimKeepsPrefix(s, n);
    var r := Trim(s);
    assert r[..n - 1] == FailureMarker;
    ContainsMiddle([], FailureMarker, r[n - 1..]);
    assert [] + FailureMarker + r[n - 1..] == r;
  }

  /** Every error a blank-free translation ends in is unsavable. */
  lemma TranslationErrorIsNotSavable(raw: string, buzzword: Translation.Answer<Option<string>>,
                                     reply: Translation.Answer<GeminiReply.Reply>)
    requires !IsBlank(raw)
    requires Translation.TranslateToCorporate(raw, buzzword, reply).screen.ShowError?
    ensures CheckSavable(Translation.TranslateToCorporate(raw, buzzword, reply).screen.message).Err?
  {
    var m :| Translation.TranslateToCorporate(raw, buzzword, reply).screen.message == Translation.FailurePrefix + m;
    FailureMessageIsNotSavable(m);
  }

  // ----- The list operations (the `some`, `filter` and `find` calls) -----

  /** `phrases.some(p => p.text === text)`. */
  function HasText(phrases: seq<Phrase>, text: string): (r: bool)
    ensures r <==> exists i :: 0 <= i < |phrases| && phrases[i].text == text
  {
    if phrases == [] then false
    else if phrases[0].text == text then true
    else
      var r := HasText(phrases[1..], text);
      assert forall i :: 1 <= i < |phrases| ==> phrases[i] == phrases[1..][i - 1];
      r
  }

  /** No two records hold the same text. */
  predicate UniqueTexts(phrases: seq<Phrase>) {
    forall i, j :: 0 <= i < j < |phrases| ==> phrases[i].text != phrases[j].text
  }

  /** Putting a record with a new text in front keeps the texts unique. */
  lemma PrependKeepsTextsUnique(p: Phrase, phrases: seq<Phrase>)
    requires UniqueTexts(phrases) && !HasText(phrases, p.text)
    ensures UniqueTexts([p] + phrases)
  {
    var s := [p] + phrases;
    forall i, j | 0 <= i < j < |s| ensures s[i].text != s[j].text {
      assert s[j] == phrases[j - 1];
      if i > 0 { assert s[i] == phrases[i - 1]; }
    }
  }

  /** `phrases.filter(p => p.id != id)`. */
  function WithoutId(phrases: seq<Phrase>, id: int): (r: seq<Phrase>)
    ensures |r| <= |phrases|
    ensures forall p :: p in r <==> p in phrases && p.id != id
  {
    if phrases == [] then []
    else
      var rest := WithoutId(phrases[1..], id);
      assert forall p :: p in phrases <==> p == phrases[0] || p in phrases[1..];
      if phrases[0].id == id then rest else [phrases[0]] + rest
  }

  /** Filtering distributes over concatenation. */
  lemma {:induction false} WithoutIdAppend(a: seq<Phrase>, b: seq<Phrase>, id: int)
    ensures WithoutId(a + b, id) == WithoutId(a, id) + WithoutId(b, id)
  {
    if a == [] {
      assert a + b == b;
    } else {
      assert (a + b)[0] == a[0];
      assert (a + b)[1..] == a[1..] + b;
      WithoutIdAppend(a[1..], b, id);
    }
  }

  /** Deleting an id no record carries changes nothing. */
  lemma {:induction false} WithoutAbsentId(phrases: seq<Phrase>, id: int)
    requires forall i :: 0 <= i < |phrases| ==> phrases[i].id != id
    ensures WithoutId(phrases, id) == phrases
  {
    if phrases != [] {
      WithoutAbsentId(phrases[1..], id);
    }
  }

  /** Deleting twice is deleting once. */
  lemma WithoutIdIdempotent(phrases: seq<Phrase>, id: int)
    ensures WithoutId(WithoutId(phrases, id), id) == WithoutId(phrases, id)
  {
    var r := WithoutId(phrases, id);
    forall i | 0 <= i < |r| ensures r[i].id != id {
      assert r[i] in r;
    }
    WithoutAbsentId(r, id);
  }

  /** Two kept records stay in the order they had. */
  lemma WithoutIdKeepsOrder(phrases: seq<Phrase>, id: int, i: int, j: int)
    requires 0 <= i < j < |phrases| && phrases[i].id != id && phrases[j].id != id
    ensures exists k, l ::
              0 <= k < l < |WithoutId(phrases, id)| &&
              WithoutId(phrases, id)[k] == phrases[i] && WithoutId(phrases, id)[l] == phrases[j]
  {
    var front, back := phrases[..j], phrases[j..];
    assert phrases == front + back;
    WithoutIdAppend(front, back, id);
    assert phrases[i] in front;
    var wf := WithoutId(front, id);
    assert phrases[i] in wf;
    var k :| 0 <= k < |wf| && wf[k] == phrases[i];
    assert back[0] == phrases[j];
    assert WithoutId(back, id) == [phrases[j]] + WithoutId(back[1..], id);
    var r := WithoutId(phrases, id);
    assert r == wf + WithoutId(back, id);
    assert r[k] == phrases[i] && r[|wf|] == phrases[j];
  }

  /** Deleting keeps the texts unique. */
  lemma {:induction false} WithoutIdKeepsTextsUnique(phrases: seq<Phrase>, id: int)
    requires UniqueTexts(phrases)
    ensures UniqueTexts(WithoutId(phrases, id))
  {
    if phrases != [] {
      var tail := phrases[1..];
      assert UniqueTexts(tail) by {
        forall i, j | 0 <= i < j < |tail| ensures tail[i].text != tail[j].text {
          assert tail[i] == phrases[i + 1] && tail[j] == phrases[j + 1];
        }
      }
      WithoutIdKeepsTextsUnique(tail, id);
      var rest := WithoutId(tail, id);
      if phrases[0].id != id {
        forall q | q in rest ensures q.text != phrases[0].text {
          var j :| 0 <= j < |tail| && tail[j] == q;
          assert phrases[j + 1] == q;
        }
        assert !HasText(rest, phrases[0].text) by {
          forall i | 0 <= i < |rest| ensures rest[i].text != phrases[0].text {
            assert rest[i] in rest;
          }
        }
        PrependKeepsTextsUnique(phrases[0], rest);
      }
    }
  }

  /** Index `i` holds the first record that carries `id`. */
  predicate FirstWithId(phrases: seq<Phrase>, id: int, i: int) {
    0 <= i < |phrases| && phrases[i].id == id &&
    forall j :: 0 <= j < i ==> phrases[j].id != id
  }

  /** `phrases.find(p => p.id == id)`: the first record that carries `id`,
      or nothing when none does. */
  function FindById(phrases: seq<Phrase>, id: int): (r: Option<Phrase>)
    ensures r.None? <==> forall i :: 0 <= i < |phrases| ==> phrases[i].id != id
    ensures r.Some? ==> exists i :: FirstWithId(phrases, id, i) && phrases[i] == r.value
  {
    if phrases == [] then None
    else if phrases[0].id == id then
      assert FirstWithId(phrases, id, 0);
      Some(phrases[0])
    else
      var r := FindById(phrases[1..], id);
      assert forall i :: 1 <= i < |phrases| ==> phrases[i] == phrases[1..][i - 1];
      FirstWithIdShift(phrases, id, r);
      r
  }

  /** A first match in the tail, behind a head without `id`, is the first
      match of the whole list. */
  lemma FirstWithIdShift(phrases: seq<Phrase>, id: int, r: Option<Phrase>)
    requires |phrases| > 0 && phrases[0].id != id
    requires r.Some? ==> exists i :: FirstWithId(phrases[1..], id, i) && phrases[1..][i] == r.value
    ensures r.Some? ==> exists i :: FirstWithId(phrases, id, i) && phrases[i] == r.value
  {
    if r.Some? {
      var i :| FirstWithId(phrases[1..], id, i) && phrases[1..][i] == r.value;
      assert FirstWithId(phrases, id, i + 1);
    }
  }

  /** A record just put in front is what a lookup of its id finds. */
  lemma FindFindsNewest(p: Phrase, phrases: seq<Phrase>)
    ensures FindById([p] + phrases, p.id) == Some(p)
  {
    assert FirstWithId([p] + phrases, p.id, 0);
  }

  /** After a delete, nothing carries the deleted id any more. */
  lemma FindAfterDelete(phrases: seq<Phrase>, id: int)
    ensures FindById(WithoutId(phrases, id), id) == None
  {
    var r := WithoutId(phrases, id);
    forall i | 0 <= i < |r| ensures r[i].id != id {
      assert r[i] in r;
    }
  }

  // ----- The store -----

  /** The browser's local storage, reduced to the one key the store uses.
      `item` is the parsed value stored under `corporatePhrases`, or None
      when the key is missing. */
  class PhraseStore {
    var item: Option<seq<Phrase>>

    constructor (initial: Option<seq<Phrase>>)
      ensures item == initial
    {
      item := initial;
    }

    /** `JSON.parse(localStorage.getItem('corporatePhrases') || '[]')`: a
        missing key reads as the empty list. */
    function Load(): (phrases: seq<Phrase>)
      reads this
      ensures item.None? ==> phrases == []
      ensures item.Some? ==> phrases == item.value
    {
      match item
      case None => []
      case Some(phrases) => phrases
    }

    /** The store's invariant: no two saved records share a text. */
    predicate Valid()
      reads this
    {
      UniqueTexts(Load())
    }

    /** `savePhrase`: saves the output text `shown` with the clock reading
        `now` as id and `displayTime` as timestamp. */
    method Save(shown: string, now: int, displayTime: string) returns (outcome: Result<Phrase, SaveError>)
      modifies this
      // An unsavable text is rejected before storage is read.
      ensures CheckSavable(shown).Err? ==>
        outcome == Err(NoValidPhrase) && item == old(item)
      // A text already saved is rejected; storage is not written.
      ensures CheckSavable(shown).Ok? && HasText(old(Load()), Trim(shown)) ==>
        outcome == Err(AlreadySaved) && item == old(item)
      // Otherwise the new record goes in front of all the old ones.
      ensures CheckSavable(shown).Ok? && !HasText(old(Load()), Trim(shown)) ==>
        outcome == Ok(Phrase(now, Trim(shown), displayTime)) &&
        item == Some([outcome.value] + old(Load()))
      // The message shown for each rejection.
      ensures outcome.Err? ==>
        Message(outcome.error) ==
        (if CheckSavable(shown).Err? then "No valid phrase to save" else "Phrase already saved")
      ensures old(Valid()) ==> Valid()
    {
      match CheckSavable(shown)
      case Err(e) =>
        outcome := Err(e);
      case Ok(text) =>
        var saved := Load();
        var record := Phrase(now, text, displayTime);
        if HasText(saved, text) {
          outcome := Err(AlreadySaved);
        } else {
          if UniqueTexts(saved) {
            PrependKeepsTextsUnique(record, saved);
          }
          item := Some([record] + saved);
          outcome := Ok(record);
        }
    }

    /** `deletePhrase`: removes every record carrying `id` and writes the
        rest back (so the key exists afterwards even if it did not before). */
    method Delete(id: int)
      modifies this
      ensures item == Some(WithoutId(old(Load()), id))
      ensures old(Valid()) ==> Valid()
    {
      var saved := Load();
      if UniqueTexts(saved) {
        WithoutIdKeepsTextsUnique(saved, id);
      }
      item := Some(WithoutId(saved, id));
    }

    /** `clearSavedPhrases` once confirmed: removes the key. */
    method Clear()
      modifies this
      ensures item == None && Load() == [] && Valid()
    {
      item := None;
    }

    /** The lookup of `copyPhrase`: the first record carrying `id`. */
    method Find(id: int) returns (found: Option<Phrase>)
      ensures found.None? <==> forall i :: 0 <= i < |Load()| ==> Load()[i].id != id
      ensures found.Some? ==> found.value in Load() && found.value.id == id
      ensures found == FindById(Load(), id)
    {
      found := FindById(Load(), id);
      if found.Some? {
        ghost var i :| FirstWithId(Load(), id, i) && Load()[i] == found.value;
      }
    }
  }

  /** Saving the same output twice stores it once: the second save is
      rejected and leaves the list as the first save made it. */
  method SaveTwice(store: PhraseStore, shown: string, now1: int, now2: int, time1: string, time2: string)
      returns (first: Result<Phrase, SaveError>, second: Result<Phrase, SaveError>)
    requires store.Valid()
    modifies store
    ensures CheckSavable(shown).Ok? ==> second == Err(AlreadySaved)
    ensures store.Valid()
    ensures first.Ok? ==> store.Load() == [first.value] + old(store.Load())
    ensures first.Err? ==> store.item == old(store.item)
  {
    first := store.Save(shown, now1, time1);
    ghost var afterFirst := store.Load();
    if CheckSavable(shown).Ok? {
      assert HasText(afterFirst, Trim(shown)) by {
        if first.Ok? {
          assert afterFirst[0].text == Trim(shown);
        }
      }
    }
    second := store.Save(shown, now2, time2);
  }
}
