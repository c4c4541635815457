/** The memoising translation lookup (`translate_text`) and the scan that applies it to every row,
    stated as functions of the cache, the log of remote calls and the remote service's replies. */
module Translation {
  import opened Wrappers

  /** What the lookup returns when the remote call raises. */
  const TranslationError: string := "Translation Error"

  /** The remote translation service into English, seen from outside: `answer(text, k)` is its reply
      to the k-th call made through this translator (counting from 0), `None` when that call raises. Making
      the reply depend on k lets one text fail now and succeed later. */
  type Backend = (string, nat) -> Option<string>

  /** The remote translator. It answers by its `answer` function and counts the calls it serves;
      `log` records the text of every call, in order. */
  class Translator {
    const answer: Backend
    var served: nat
    ghost var log: seq<string>

    ghost predicate Valid()
      reads this
    {
      served == |log|
    }

    constructor (answer: Backend)
      ensures Valid() && this.answer == answer && log == []
    {
      this.answer := answer;
      served := 0;
      log := [];
    }

    /** One remote call: `translator.translate(text, dest="en").text`, `None` for an exception. */
    method Translate(text: string) returns (reply: Option<string>)
      requires Valid()
      modifies this
      ensures Valid()
      ensures reply == answer(text, |old(log)|)
      ensures log == old(log) + [text]
    {
      reply := answer(text, served);
      served := served + 1;
      log := log + [text];
    }
  }

  /** Every entry of `before` is still in `after` with the same value. */
  ghost predicate Grows(before: map<string, string>, after: map<string, string>)
  {
    forall t :: t in before ==> t in after && after[t] == before[t]
  }

  /** One lookup's result, the cache after it and the log of remote calls after it. */
  datatype Step = Step(value: string, cache: map<string, string>, log: seq<string>)

  /** `translate_text(text)` with cache `cache`, after the remote calls in `log`. */
  function Lookup(answer: Backend, cache: map<string, string>, log: seq<string>, text: Option<string>): (r: Step)
    ensures Grows(cache, r.cache)
    ensures r.log == log || (text.Some? && text.value !in cache && r.log == log + [text.value])
    ensures r.cache != cache ==> text.Some? && r.cache == cache[text.value := r.value]
  {
    match text
    case None => Step("", cache, log)
    case Some(t) =>
      if t in cache then Step(cache[t], cache, log)
      else
        match answer(t, |log|)
        case Some(v) => Step(v, cache[t := v], log + [t])
        case None => Step(TranslationError, cache, log + [t])
  }

  /** A null description gives the empty string, without touching the cache or the remote service. */
  lemma LookupNull(answer: Backend, cache: map<string, string>, log: seq<string>)
    ensures Lookup(answer, cache, log, None) == Step("", cache, log)
  {
  }

  /** A cached description gives its stored translation, with no remote call and no cache change. */
  lemma LookupCached(answer: Backend, cache: map<string, string>, log: seq<string>, t: string)
    requires t in cache
    ensures Lookup(answer, cache, log, Some(t)) == Step(cache[t], cache, log)
  {
  }

  /** A description not in the cache costs exactly one remote call. A reply is returned and stored
      under that text; a failure returns the error marker and leaves the cache as it was. */
  lemma LookupMiss(answer: Backend, cache: map<string, string>, log: seq<string>, t: string)
    requires t !in cache
    ensures var s := Lookup(answer, cache, log, Some(t));
      && s.log == log + [t]
      && (answer(t, |log|).Some? ==> s.value == answer(t, |log|).value && s.cache == cache[t := s.value])
      && (answer(t, |log|).None? ==> s.value == TranslationError && s.cache == cache)
  {
  }

  /** A lookup never removes or overwrites a cache entry, and only ever adds to the log. */
  lemma LookupGrows(answer: Backend, cache: map<string, string>, log: seq<string>, text: Option<string>)
    ensures Grows(cache, Lookup(answer, cache, log, text).cache)
    ensures Lookup(answer, cache, log, text).log[..|log|] == log
  {
  }

  /** Asking twice for a text whose first remote call succeeded costs no second call. */
  lemma RepeatAfterSuccess(answer: Backend, cache: map<string, string>, log: seq<string>, t: string)
    requires t !in cache && answer(t, |log|).Some?
    ensures var first := Lookup(answer, cache, log, Some(t));
            Lookup(answer, first.cache, first.log, Some(t)) == Step(first.value, first.cache, first.log)
  {
  }

  /** Failures are not cached: asking again after a failed call makes another remote call. */
  lemma RepeatAfterFailure(answer: Backend, cache: map<string, string>, log: seq<string>, t: string)
    requires t !in cache && answer(t, |log|).None?
    ensures var first := Lookup(answer, cache, log, Some(t));
            && first.cache == cache
            && Lookup(answer, first.cache, first.log, Some(t)).log == log + [t, t]
  {
  }

  /** How the cache relates to the remote calls made so far:
      every stored translation is the reply of a successful call for that text;
      every successful call's text is stored;
      and a text is sent again only when its earlier call failed, so each text has at most one
      successful remote call. */
  ghost predicate Consistent(answer: Backend, cache: map<string, string>, log: seq<string>)
  {
    && (forall t :: t in cache ==> exists k :: 0 <= k < |log| && log[k] == t && answer(t, k) == Some(cache[t]))
    && (forall k :: 0 <= k < |log| && answer(log[k], k).Some? ==> log[k] in cache)
    && (forall j, k :: 0 <= j < k < |log| && log[j] == log[k] ==> answer(log[j], j).None?)
  }

  /** A lookup keeps the cache consistent with the remote calls. */
  lemma LookupKeepsConsistent(answer: Backend, cache: map<string, string>, log: seq<string>, text: Option<string>)
    requires Consistent(answer, cache, log)
    ensures var s := Lookup(answer, cache, log, text); Consistent(answer, s.cache, s.log)
  {
    if text.Some? && text.value !in cache {
      var t := text.value;
      var s := Lookup(answer, cache, log, text);
      assert s.log == log + [t];
      forall u | u in s.cache
        ensures exists k :: 0 <= k < |s.log| && s.log[k] == u && answer(u, k) == Some(s.cache[u])
      {
        if u == t {
          assert s.log[|log|] == t;
        } else {
          var k :| 0 <= k < |log| && log[k] == u && answer(u, k) == Some(cache[u]);
          assert s.log[k] == u;
        }
      }
      forall j, k | 0 <= j < k < |s.log| && s.log[j] == s.log[k]
        ensures answer(s.log[j], j).None?
      {
        if k == |log| {
          assert s.log[j] == log[j] == t;
        }
      }
    }
  }

  /** The result of scanning some rows: one value per row, the cache and the log afterwards. */
  datatype ScanState = ScanState(translated: seq<string>, cache: map<string, string>, log: seq<string>)

  /** The translation loop over `descs`, one lookup per row in row order. */
  function Scan(answer: Backend, cache: map<string, string>, log: seq<string>, descs: seq<Option<string>>): (r: ScanState)
    ensures |r.translated| == |descs|
    decreases |descs|
  {
    if descs == [] then ScanState([], cache, log)
    else
      var prev := Scan(answer, cache, log, descs[..|descs| - 1]);
      var s := Lookup(answer, prev.cache, prev.log, descs[|descs| - 1]);
      ScanState(prev.translated + [s.value], s.cache, s.log)
  }

  /** Entry i of the translated column is the lookup of row i's description, made with the cache
      and call log left by rows 0 .. i-1. */
  lemma {:induction false} ScanAligned(answer: Backend, cache: map<string, string>, log: seq<string>,
                                       descs: seq<Option<string>>, i: nat)
    requires i < |descs|
    ensures var before := Scan(answer, cache, log, descs[..i]);
            Scan(answer, cache, log, descs).translated[i] == Lookup(answer, before.cache, before.log, descs[i]).value
    decreases |descs|
  {
    var n := |descs| - 1;
    if i < n {
      ScanAligned(answer, cache, log, descs[..n], i);
      assert descs[..n][..i] == descs[..i];
    } else {
      assert descs[..n] == descs[..i];
    }
  }

  /** The cache state after a prefix of the rows is contained in the state after all of them, and
      the call log after the prefix is a prefix of the final one. */
  lemma {:induction false} ScanGrows(answer: Backend, cache: map<string, string>, log: seq<string>,
                                     descs: seq<Option<string>>, i: nat)
    requires i <= |descs|
    ensures var mid := Scan(answer, cache, log, descs[..i]);
            var r := Scan(answer, cache, log, descs);
            Grows(mid.cache, r.cache) && |mid.log| <= |r.log| && r.log[..|mid.log|] == mid.log
    decreases |descs|
  {
    if i < |descs| {
      var n := |descs| - 1;
      ScanGrows(answer, cache, log, descs[..n], i);
      assert descs[..n][..i] == descs[..i];
      var prev := Scan(answer, cache, log, descs[..n]);
      LookupGrows(answer, prev.cache, prev.log, descs[n]);
    } else {
      assert descs[..i] == descs;
    }
  }

  /** Scanning keeps the cache consistent with the remote calls. */
  lemma {:induction false} ScanKeepsConsistent(answer: Backend, cache: map<string, string>, log: seq<string>,
                                               descs: seq<Option<string>>)
    requires Consistent(answer, cache, log)
    ensures var r := Scan(answer, cache, log, descs); Consistent(answer, r.cache, r.log)
    decreases |descs|
  {
    if descs != [] {
      var n := |descs| - 1;
      ScanKeepsConsistent(answer, cache, log, descs[..n]);
      var prev := Scan(answer, cache, log, descs[..n]);
      LookupKeepsConsistent(answer, prev.cache, prev.log, descs[n]);
    }
  }

  /** What a row's translated value can be: "" for a null description, the stored translation for
      one cached before the scan, and otherwise either the error marker or the translation the cache
      holds for it at the end of the scan. */
  lemma ScanRow(answer: Backend, cache: map<string, string>, log: seq<string>, descs: seq<Option<string>>, i: nat)
    requires i < |descs|
    ensures var r := Scan(answer, cache, log, descs);
      && (descs[i].None? ==> r.translated[i] == "")
      && (descs[i].Some? && descs[i].value in cache ==> r.translated[i] == cache[descs[i].value])
      && (descs[i].Some? ==> r.translated[i] == TranslationError
                             || (descs[i].value in r.cache && r.cache[descs[i].value] == r.translated[i]))
  {
    var r := Scan(answer, cache, log, descs);
    var before := Scan(answer, cache, log, descs[..i]);
    var after := Scan(answer, cache, log, descs[..i + 1]);
    ScanAligned(answer, cache, log, descs, i);
    ScanGrows(answer, cache, log, descs, i);
    ScanGrows(answer, cache, log, descs, i + 1);
    assert descs[..0] == [];
    ScanGrows(answer, cache, log, descs[..i], 0);
    assert descs[..i][..0] == [];
    assert descs[..i + 1][..i] == descs[..i];
    assert after.cache == Lookup(answer, before.cache, before.log, descs[i]).cache;
  }

  /** Every remote call made by the scan is for the description of one of its rows. */
  lemma {:induction false} ScanCallsAreRowTexts(answer: Backend, cache: map<string, string>, log: seq<string>,
                                                descs: seq<Option<string>>)
    ensures var r := Scan(answer, cache, log, descs);
            |log| <= |r.log| && forall k :: |log| <= k < |r.log| ==> Some(r.log[k]) in descs
    decreases |descs|
  {
    if descs != [] {
      var n := |descs| - 1;
      ScanCallsAreRowTexts(answer, cache, log, descs[..n]);
      var prev := Scan(answer, cache, log, descs[..n]);
      var r := Scan(answer, cache, log, descs);
      forall k | |log| <= k < |r.log| ensures Some(r.log[k]) in descs {
        if k < |prev.log| {
          assert r.log[k] == prev.log[k];
          assert Some(r.log[k]) in descs[..n];
        } else {
          assert descs[n] == Some(r.log[k]);
        }
      }
    }
  }

  /** A text already cached before the scan is never sent to the remote service during it, whatever
      the starting cache and log. */
  lemma {:induction false} NoCallForCachedText(answer: Backend, cache: map<string, string>, log: seq<string>,
                                               descs: seq<Option<string>>)
    ensures var r := Scan(answer, cache, log, descs);
            |log| <= |r.log| && forall k :: |log| <= k < |r.log| ==> r.log[k] !in cache
    decreases |descs|
  {
    if descs != [] {
      var n := |descs| - 1;
      NoCallForCachedText(answer, cache, log, descs[..n]);
      var prev := Scan(answer, cache, log, descs[..n]);
      var r := Scan(answer, cache, log, descs);
      ScanGrows(answer, cache, log, descs[..n], 0);
      assert descs[..n][..0] == [];
      forall k | |log| <= k < |r.log| ensures r.log[k] !in cache {
        if k < |prev.log| {
          assert r.log[k] == prev.log[k];
        } else {
          assert r.log[k] == descs[n].value && descs[n].value !in prev.cache;
        }
      }
    }
  }
}
