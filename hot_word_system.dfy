/**
 * HotWordSystem: a trending-terms aggregator over a sliding time window.
 * Messages arrive already tokenized; each kept token is interned to a dense
 * id, counted into the tail bucket of a deque of time buckets and into the
 * global aggregate, and buckets that fall out of the window are retired.
 * Queries return the K ids with the highest counts, resolved back to words.
 */
module HotWords {
  import opened Interning
  import opened WindowSpec
  import opened TopK

  class HotWordSystem {
    /** Length of the trailing window, in seconds; fixed at construction. */
    const windowDurationSec: int
    /** Width of one bucket, in seconds; fixed at construction. */
    const bucketStepSec: int

    /** The deque of buckets, front (oldest) first. */
    var windowBuckets: seq<TimeBucket>
    /** The total count of each id over the held buckets; ids with no count have no entry. */
    var globalCount: map<nat, int>
    /** The interning tables and the next id to hand out. */
    var wordToId: map<string, nat>
    var idToWord: map<nat, string>
    var nextWordId: nat

    /** The object invariant: the interning tables, the deque and the aggregate are consistent. */
    ghost predicate Valid()
      reads this
    {
      && InternTables(wordToId, idToWord, nextWordId)
      && BucketsWellFormed(windowBuckets, idToWord)
      && AggregateMatches(globalCount, windowBuckets, idToWord)
    }

    /** A new, empty system; the bucket step defaults to one second. */
    constructor (windowDuration: int, bucketStep: int := 1)
      ensures Valid()
      ensures windowDurationSec == windowDuration && bucketStepSec == bucketStep
      ensures windowBuckets == [] && globalCount == map[]
      ensures wordToId == map[] && idToWord == map[] && nextWordId == 1
    {
      windowDurationSec := windowDuration;
      bucketStepSec := bucketStep;
      windowBuckets := [];
      globalCount := map[];
      wordToId := map[];
      idToWord := map[];
      nextWordId := 1;
    }

    /**
     * The id of `word`: its existing id, or else the next id, recorded in
     * both tables. No id already handed out is changed.
     */
    method GetOrCreateWordId(word: string) returns (id: nat)
      requires InternTables(wordToId, idToWord, nextWordId)
      modifies this`wordToId, this`idToWord, this`nextWordId
      ensures InternTables(wordToId, idToWord, nextWordId)
      ensures id >= 1 && word in wordToId && wordToId[word] == id && GetWordById(id) == word
      ensures word in old(wordToId) ==>
        && id == old(wordToId)[word]
        && wordToId == old(wordToId) && idToWord == old(idToWord) && nextWordId == old(nextWordId)
      ensures word !in old(wordToId) ==>
        && id == old(nextWordId) && nextWordId == old(nextWordId) + 1
        && wordToId == old(wordToId)[word := id] && idToWord == old(idToWord)[id := word]
      ensures forall i :: i in old(idToWord) ==> i in idToWord && idToWord[i] == old(idToWord)[i]
    {
      if word in wordToId {
        return wordToId[word];
      }
      InternNewWord(wordToId, idToWord, nextWordId, word);
      id := nextWordId;
      nextWordId := nextWordId + 1;
      wordToId := wordToId[word := id];
      idToWord := idToWord[id := word];
    }

    /** The word interned as `id`, or the empty string for an id never handed out. */
    function GetWordById(id: nat): (word: string)
      reads this
      ensures InternTables(wordToId, idToWord, nextWordId) && id in idToWord ==> word in wordToId && wordToId[word] == id
      ensures id !in idToWord ==> word == ""
    {
      if id in idToWord then idToWord[id] else ""
    }

    /**
     * Ingests one tokenized message stamped `timestampMs` milliseconds. An
     * empty message changes nothing. Otherwise every kept token is interned
     * (no existing id changes; the new words take the ids from the old
     * counter on, one each) and the deque becomes Ingest(...) of the old
     * one: a bucket is pushed for a new, later aligned time; the kept tokens
     * are counted into the tail bucket (also for a late message, whose
     * aligned time is earlier than the tail's); then the window slides to
     * the message's aligned time.
     */
    method AddMessage(words: seq<string>, timestampMs: int)
      requires Valid() && bucketStepSec > 0
      modifies this
      ensures Valid()
      ensures words == [] ==>
        && windowBuckets == old(windowBuckets) && globalCount == old(globalCount)
        && wordToId == old(wordToId) && idToWord == old(idToWord) && nextWordId == old(nextWordId)
      ensures InternedMessage(words, old(wordToId), old(idToWord), old(nextWordId), wordToId, idToWord, nextWordId)
      ensures words != [] ==>
        windowBuckets == Ingest(old(windowBuckets), words, wordToId, AlignTime(timestampMs, bucketStepSec), windowDurationSec)
    {
      if words == [] {
        assert KeptWords(words) == {};
        GrownStart(wordToId, idToWord, nextWordId);
        return;
      }
      var timestampSec := TruncDiv(timestampMs, 1000);
      var alignTime := timestampSec - TruncMod(timestampSec, bucketStepSec);
      assert alignTime == AlignTime(timestampMs, bucketStepSec);

      IngestAligned(words, alignTime);
    }

    /**
     * The bucket, counting and sliding steps of an ingestion at aligned time
     * `alignTime`: a bucket is pushed for a new, later aligned time, the kept
     * tokens are counted into the tail bucket, then the window slides.
     */
    method IngestAligned(words: seq<string>, alignTime: int)
      requires Valid()
      modifies this`windowBuckets, this`globalCount, this`wordToId, this`idToWord, this`nextWordId
      ensures Valid()
      ensures InternedMessage(words, old(wordToId), old(idToWord), old(nextWordId), wordToId, idToWord, nextWordId)
      ensures windowBuckets == Ingest(old(windowBuckets), words, wordToId, alignTime, windowDurationSec)
    {
      ghost var bs0 := windowBuckets;
      DepositAligned(words, alignTime);
      ghost var deposited, ids := windowBuckets, wordToId;
      SlideWindow(alignTime);
      IngestSteps(bs0, words, ids, alignTime, windowDurationSec, deposited, windowBuckets);
    }

    /**
     * The bucket and counting steps of an ingestion at aligned time
     * `alignTime`, before the window slides.
     */
    method DepositAligned(words: seq<string>, alignTime: int)
      requires Valid()
      modifies this`windowBuckets, this`globalCount, this`wordToId, this`idToWord, this`nextWordId
      ensures Valid()
      ensures InternedMessage(words, old(wordToId), old(idToWord), old(nextWordId), wordToId, idToWord, nextWordId)
      ensures Interned(words, wordToId)
      ensures windowBuckets == Deposit(Place(old(windowBuckets), alignTime), words, wordToId)
    {
      ghost var placed := Place(windowBuckets, alignTime);
      PlaceBucket(alignTime);
      assert windowBuckets == placed;
      CountTokens(words);
    }

    /**
     * The bucket step: pushes an empty bucket stamped `alignTime` when the
     * deque is empty or `alignTime` is later than its tail; an equal or
     * earlier (late) aligned time reuses the tail bucket.
     */
    method PlaceBucket(alignTime: int)
      requires Valid()
      modifies this`windowBuckets
      ensures Valid() && windowBuckets == Place(old(windowBuckets), alignTime)
    {
      PlaceKeepsInvariants(windowBuckets, globalCount, idToWord, alignTime);
      if windowBuckets == [] || Last(windowBuckets).alignTimestamp != alignTime {
        if windowBuckets != [] && alignTime < Last(windowBuckets).alignTimestamp {
          // a late message gets no bucket of its own: it is counted into the tail
        } else {
          windowBuckets := windowBuckets + [TimeBucket(alignTime, map[])];
        }
      }
    }

    /**
     * Counts the kept tokens of a message, in order, into the tail bucket and
     * the aggregate, interning each kept word on the way.
     */
    method CountTokens(words: seq<string>)
      requires Valid() && windowBuckets != []
      modifies this`windowBuckets, this`globalCount, this`wordToId, this`idToWord, this`nextWordId
      ensures Valid()
      ensures InternedMessage(words, old(wordToId), old(idToWord), old(nextWordId), wordToId, idToWord, nextWordId)
      ensures Interned(words, wordToId) && windowBuckets == Deposit(old(windowBuckets), words, wordToId)
    {
      ghost var staged := windowBuckets;
      assert staged == Deposit(staged, words[..0], wordToId);
      GrownStart(wordToId, idToWord, nextWordId);
      for i := 0 to |words|
        invariant Valid() && Counted(words, i, staged, old(wordToId), old(idToWord), old(nextWordId))
      {
        CountStep(words, i, staged, old(wordToId), old(idToWord), old(nextWordId));
      }
      assert words[..|words|] == words;
      NewWordsCount(old(wordToId), old(idToWord), old(nextWordId), wordToId, idToWord, nextWordId);
    }

    /**
     * The state after counting the first `i` tokens of `words` into the
     * deque `staged`, starting from the tables `ids0`, `names0` with counter
     * `next0`: the kept words so far are interned, consecutively numbered
     * when new, and counted into the tail bucket.
     */
    ghost predicate Counted(words: seq<string>, i: nat, staged: seq<TimeBucket>,
                            ids0: map<string, nat>, names0: map<nat, string>, next0: nat)
      reads this
    {
      && i <= |words| && staged != [] && windowBuckets != []
      && wordToId.Keys == ids0.Keys + KeptWords(words[..i])
      && NumberedFrom(ids0, names0, next0, wordToId, idToWord, nextWordId)
      && Interned(words[..i], wordToId)
      && FirstSeenOrder(words, i, ids0, wordToId)
      && windowBuckets == Deposit(staged, words[..i], wordToId)
    }

    /** Counts token `i` of `words`, if it is kept, extending Counted by one token. */
    method CountStep(words: seq<string>, i: nat, ghost staged: seq<TimeBucket>,
                     ghost ids0: map<string, nat>, ghost names0: map<nat, string>, ghost next0: nat)
      requires i < |words|
      requires Valid() && Counted(words, i, staged, ids0, names0, next0)
      modifies this`windowBuckets, this`globalCount, this`wordToId, this`idToWord, this`nextWordId
      ensures Valid() && Counted(words, i + 1, staged, ids0, names0, next0)
    {
      var w := words[i];
      KeptWordsNext(words, i, ids0.Keys);
      if Kept(w) {
        ghost var idsBefore, namesBefore, nextBefore := wordToId, idToWord, nextWordId;
        var wid := CountToken(w);
        NumberedFromStep(ids0, names0, next0, idsBefore, namesBefore, nextBefore,
                         wordToId, idToWord, nextWordId, w);
        FirstSeenNext(words, i, ids0, idsBefore, namesBefore, nextBefore, wordToId);
        TallyFrame(Last(staged).wordCounts, words[..i], idsBefore, wordToId);
        DepositNext(staged, words, i, wordToId);
      } else {
        FirstSeenNext(words, i, ids0, wordToId, idToWord, nextWordId, wordToId);
        DepositNext(staged, words, i, wordToId);
      }
    }

    /**
     * Counts one kept token: interns its word (a new word takes the counter,
     * which advances) and adds one for its id to the tail bucket and to the
     * aggregate.
     */
    method CountToken(w: string) returns (wid: nat)
      requires Valid() && windowBuckets != [] && Kept(w)
      modifies this`windowBuckets, this`globalCount, this`wordToId, this`idToWord, this`nextWordId
      ensures Valid()
      ensures w in wordToId && wid == wordToId[w]
      ensures w in old(wordToId) ==>
        && wid == old(wordToId)[w] && nextWordId == old(nextWordId)
        && wordToId == old(wordToId) && idToWord == old(idToWord)
      ensures w !in old(wordToId) ==>
        && wid == old(nextWordId) && nextWordId == old(nextWordId) + 1
        && wordToId == old(wordToId)[w := wid] && idToWord == old(idToWord)[wid := w]
      ensures wordToId.Keys == old(wordToId).Keys + {w}
      ensures Extends(old(wordToId), old(idToWord), wordToId, idToWord)
      ensures windowBuckets == BumpTail(old(windowBuckets), wid)
    {
      wid := GetOrCreateWordId(w);
      WiderTables(windowBuckets, globalCount, old(idToWord), idToWord);
      CountOne(windowBuckets, globalCount, idToWord, wid);
      windowBuckets := BumpTail(windowBuckets, wid);
      globalCount := globalCount[wid := CountOf(globalCount, wid) + 1];
    }

    /**
     * Retires the front buckets stamped at or before
     * `currentAlignTime - windowDurationSec`, subtracting their counts from
     * the aggregate and erasing entries that reach zero. The interning
     * tables are not touched.
     */
    method SlideWindow(currentAlignTime: int)
      requires Valid()
      modifies this`windowBuckets, this`globalCount
      ensures Valid()
      ensures windowBuckets == Expire(old(windowBuckets), currentAlignTime - windowDurationSec)
    {
      var expireThreshold := currentAlignTime - windowDurationSec;
      while windowBuckets != []
        invariant Valid()
        invariant Expire(windowBuckets, expireThreshold) == Expire(old(windowBuckets), expireThreshold)
        decreases |windowBuckets|
      {
        if windowBuckets[0].alignTimestamp <= expireThreshold {
          RetireFront();
        } else {
          break;
        }
      }
    }

    /**
     * Retires the front bucket: each of its counts is subtracted from the
     * aggregate, entries that reach zero are erased, and the bucket is popped.
     */
    method RetireFront()
      requires Valid() && windowBuckets != []
      modifies this`windowBuckets, this`globalCount
      ensures Valid()
      ensures windowBuckets == old(windowBuckets)[1..]
    {
      ghost var bs, names := windowBuckets, idToWord;
      var front := windowBuckets[0];
      var pending := front.wordCounts.Keys;
      RetireStart(globalCount, bs, names);
      while pending != {}
        invariant Retiring(globalCount, bs, pending, names)
        modifies this`globalCount
        decreases pending
      {
        var id :| id in pending;
        var count := front.wordCounts[id];
        RetireOne(globalCount, bs, pending, names, id);
        if id in globalCount {
          var remaining := globalCount[id] - count;
          if remaining <= 0 {
            globalCount := globalCount - {id};
          } else {
            globalCount := globalCount[id := remaining];
          }
        }
        pending := pending - {id};
      }
      RetireDone(globalCount, windowBuckets, idToWord);
      windowBuckets := windowBuckets[1..];
    }

    /**
     * The top `k` words by count: none for `k <= 0`, otherwise
     * min(k, |globalCount|) entries, each a word with its aggregate count,
     * ordered by (count, id) descending, and no word left out has a count
     * above the smallest one reported.
     */
    method QueryTopK(k: int) returns (result: seq<WordFreq>)
      requires Valid()
      ensures k <= 0 ==> result == []
      ensures k > 0 ==> |result| == if |globalCount| < k then |globalCount| else k
      ensures forall i :: 0 <= i < |result| ==> Reports(result[i], wordToId, globalCount)
      ensures forall i, j :: 0 <= i < j < |result| ==> RanksAbove(result[i], result[j], wordToId)
      ensures forall i, j :: 0 <= i < j < |result| ==> result[i].word != result[j].word
      ensures result != [] ==> forall id :: id in globalCount && idToWord[id] !in Words(result) ==>
        globalCount[id] <= result[|result| - 1].count
    {
      if |globalCount| == 0 || k <= 0 {
        return [];
      }

      var heap := ScanCounts(globalCount, k);
      result := DrainHeap(heap);
      DrainedRanking(wordToId, idToWord, nextWordId, globalCount, k, heap, result);
      RankedDistinct(result, wordToId, globalCount);
    }

    /**
     * Pops the heap empty into a fresh array, resolving each id to its word,
     * so the entries come out in ascending (count, id) order; then reverses
     * the array, so the answer is in descending order.
     */
    method DrainHeap(heap: seq<Node>) returns (result: seq<WordFreq>)
      ensures |result| == |heap|
      ensures forall m :: 0 <= m < |heap| ==>
        result[m] == WordFreq(GetWordById(heap[|heap| - 1 - m].1), heap[|heap| - 1 - m].0)
    {
      var drained := new WordFreq[|heap|];
      var rest := heap;
      var n := 0;
      while rest != []
        invariant 0 <= n <= |heap| && rest == heap[n..]
        invariant forall m :: 0 <= m < n ==> drained[m] == WordFreq(GetWordById(heap[m].1), heap[m].0)
      {
        var node := rest[0];
        rest := rest[1..];
        drained[n] := WordFreq(GetWordById(node.1), node.0);
        n := n + 1;
      }
      Reverse(drained);
      result := drained[..];
    }
  }

  /** `s` back to front. */
  function Reversed<T>(s: seq<T>): (r: seq<T>)
    ensures |r| == |s|
    ensures forall i :: 0 <= i < |s| ==> r[i] == s[|s| - 1 - i]
  {
    if s == [] then [] else Reversed(s[1..]) + [s[0]]
  }

  /** Reverses `a` in place by swapping mirrored pairs from the outside in. */
  method Reverse<T>(a: array<T>)
    modifies a
    ensures a[..] == Reversed(old(a[..]))
  {
    var n := a.Length;
    var lo := 0;
    while lo < n / 2
      invariant 0 <= lo <= n / 2
      invariant forall m :: 0 <= m < lo ==> a[m] == old(a[n - 1 - m]) && a[n - 1 - m] == old(a[m])
      invariant forall m :: lo <= m < n - lo ==> a[m] == old(a[m])
    {
      a[lo], a[n - 1 - lo] := a[n - 1 - lo], a[lo];
      lo := lo + 1;
    }
  }

  /** `e` names an interned word whose id has aggregate count `e.count`. */
  ghost predicate Reports(e: WordFreq, wordToId: map<string, nat>, globalCount: map<nat, int>)
  {
    e.word in wordToId && wordToId[e.word] in globalCount && globalCount[wordToId[e.word]] == e.count
  }

  /** `a` ranks strictly above `b`: a higher count, or the same count and a higher id. */
  ghost predicate RanksAbove(a: WordFreq, b: WordFreq, wordToId: map<string, nat>)
  {
    && a.word in wordToId && b.word in wordToId
    && (a.count > b.count || (a.count == b.count && wordToId[a.word] > wordToId[b.word]))
  }

  /** The words of a query answer. */
  function Words(r: seq<WordFreq>): set<string>
  {
    set e | e in r :: e.word
  }

  /**
   * Draining the heap of a finished scan and reversing the drained entries
   * gives words that report their aggregate counts, ranked by (count, id)
   * descending, with no left-out id counted above the last entry.
   */
  lemma DrainedRanking(wordToId: map<string, nat>, idToWord: map<nat, string>, nextId: nat,
                       globalCount: map<nat, int>, k: int, heap: seq<Node>, result: seq<WordFreq>)
    requires InternTables(wordToId, idToWord, nextId)
    requires forall id :: id in globalCount ==> globalCount[id] > 0 && id in idToWord
    requires Scanned(globalCount, k, heap, PositiveIds(globalCount))
    requires |result| == |heap|
    requires forall m :: 0 <= m < |result| ==>
      result[m] == WordFreq(idToWord[heap[|heap| - 1 - m].1], heap[|heap| - 1 - m].0)
    ensures k > 0 ==> |result| == if |globalCount| < k then |globalCount| else k
    ensures forall i :: 0 <= i < |result| ==> Reports(result[i], wordToId, globalCount)
    ensures forall i, j :: 0 <= i < j < |result| ==> RanksAbove(result[i], result[j], wordToId)
    ensures result != [] ==> forall id :: id in globalCount && idToWord[id] !in Words(result) ==>
      globalCount[id] <= result[|result| - 1].count
  {
    assert PositiveIds(globalCount) == globalCount.Keys;
    var n := |heap|;
    forall i | 0 <= i < n ensures Reports(result[i], wordToId, globalCount) {
      assert heap[n - 1 - i] in heap;
    }
    forall i, j | 0 <= i < j < n ensures RanksAbove(result[i], result[j], wordToId) {
      assert heap[n - 1 - i] in heap && heap[n - 1 - j] in heap;
      assert Below(heap[n - 1 - j], heap[n - 1 - i]);
    }
    if n > 0 {
      forall id | id in globalCount && idToWord[id] !in Words(result)
        ensures globalCount[id] <= result[n - 1].count
      {
        forall j | 0 <= j < n ensures heap[j] != (globalCount[id], id) {
          assert result[n - 1 - j] in result;
        }
      }
    }
  }

  /** Entries ranked strictly one above the next, each reporting its word's count, name distinct words. */
  lemma RankedDistinct(result: seq<WordFreq>, wordToId: map<string, nat>, globalCount: map<nat, int>)
    requires forall i :: 0 <= i < |result| ==> Reports(result[i], wordToId, globalCount)
    requires forall i, j :: 0 <= i < j < |result| ==> RanksAbove(result[i], result[j], wordToId)
    ensures forall i, j :: 0 <= i < j < |result| ==> result[i].word != result[j].word
  {
    forall i, j | 0 <= i < j < |result| ensures result[i].word != result[j].word {
      assert Reports(result[i], wordToId, globalCount) && Reports(result[j], wordToId, globalCount);
      assert RanksAbove(result[i], result[j], wordToId);
    }
  }

  /** A freshly constructed system reports nothing, whatever K is asked for. */
  method FreshSystemReportsNothing(windowDuration: int, k: int) returns (result: seq<WordFreq>)
    ensures result == []
  {
    var system := new HotWordSystem(windowDuration);
    result := system.QueryTopK(k);
  }
}
