/**
 * The term interner of HotWordSystem: two tables that map each word to a
 * dense id and back. Ids are handed out from 1 upwards and never reused.
 */
module Interning {

  /** No two words share an id. */
  ghost predicate Injective(ids: map<string, nat>)
  {
    forall a, b :: a in ids && b in ids && ids[a] == ids[b] ==> a == b
  }

  /**
   * The tables are mutual inverses, and the ids handed out are exactly
   * 1 .. nextId - 1: id 0 is never used, nextId is fresh and no id is skipped.
   */
  ghost predicate InternTables(wordToId: map<string, nat>, idToWord: map<nat, string>, nextId: nat)
  {
    && nextId >= 1
    && (forall w :: w in wordToId ==> wordToId[w] in idToWord && idToWord[wordToId[w]] == w)
    && (forall id :: id in idToWord ==> 1 <= id < nextId && idToWord[id] in wordToId && wordToId[idToWord[id]] == id)
    && (forall id :: 1 <= id < nextId ==> id in idToWord)
  }

  /** Mutually inverse tables give every word its own id. */
  lemma TablesInjective(wordToId: map<string, nat>, idToWord: map<nat, string>, nextId: nat)
    requires InternTables(wordToId, idToWord, nextId)
    ensures Injective(wordToId)
  {
    forall a, b | a in wordToId && b in wordToId && wordToId[a] == wordToId[b]
      ensures a == b
    {
      assert idToWord[wordToId[a]] == a && idToWord[wordToId[b]] == b;
    }
  }

  /**
   * Interning a new word under `nextId` and advancing the counter keeps the
   * tables mutual inverses; the new id was not in use, so no id is reassigned.
   */
  lemma InternNewWord(wordToId: map<string, nat>, idToWord: map<nat, string>, nextId: nat, w: string)
    requires InternTables(wordToId, idToWord, nextId) && w !in wordToId
    ensures nextId !in idToWord
    ensures InternTables(wordToId[w := nextId], idToWord[nextId := w], nextId + 1)
  {
  }

  /** The tables `wordToId`, `idToWord` keep every entry of the earlier tables `wordToId0`, `idToWord0`. */
  ghost predicate Extends(wordToId0: map<string, nat>, idToWord0: map<nat, string>,
                          wordToId: map<string, nat>, idToWord: map<nat, string>)
  {
    && (forall w :: w in wordToId0 ==> w in wordToId && wordToId[w] == wordToId0[w])
    && (forall id :: id in idToWord0 ==> id in idToWord && idToWord[id] == idToWord0[id])
  }

  /**
   * Going from the tables `wordToId0`, `idToWord0` with counter `nextId0` to
   * `wordToId`, `idToWord` with counter `nextId`: every earlier entry is
   * kept, the counter never moved back, every word new since `wordToId0` got
   * an id in nextId0 .. nextId - 1, and every id in that range names a new
   * word.
   */
  ghost predicate NumberedFrom(wordToId0: map<string, nat>, idToWord0: map<nat, string>, nextId0: nat,
                               wordToId: map<string, nat>, idToWord: map<nat, string>, nextId: nat)
  {
    && Extends(wordToId0, idToWord0, wordToId, idToWord)
    && nextId0 <= nextId
    && (forall w :: w in wordToId && w !in wordToId0 ==> nextId0 <= wordToId[w] < nextId)
    && (forall id :: nextId0 <= id < nextId ==> id in idToWord && idToWord[id] !in wordToId0)
  }

  /**
   * One interning step keeps the numbering: the step keeps every entry, and
   * either `w` was known and the tables and counter did not change, or `w`
   * is new, got the counter in both tables, and the counter advanced by one.
   */
  lemma {:induction false} NumberedFromStep(wordToId0: map<string, nat>, idToWord0: map<nat, string>, nextId0: nat,
                         wordToId: map<string, nat>, idToWord: map<nat, string>, nextId: nat,
                         wordToId': map<string, nat>, idToWord': map<nat, string>, nextId': nat, w: string)
    requires NumberedFrom(wordToId0, idToWord0, nextId0, wordToId, idToWord, nextId)
    requires Extends(wordToId, idToWord, wordToId', idToWord')
    requires w in wordToId ==> wordToId' == wordToId && idToWord' == idToWord && nextId' == nextId
    requires w !in wordToId ==>
      && wordToId' == wordToId[w := nextId] && idToWord' == idToWord[nextId := w] && nextId' == nextId + 1
    ensures NumberedFrom(wordToId0, idToWord0, nextId0, wordToId', idToWord', nextId')
  {
    if w !in wordToId {
      forall id | nextId0 <= id < nextId'
        ensures id in idToWord' && idToWord'[id] !in wordToId0
      {
        if id < nextId {
          assert id in idToWord && idToWord[id] !in wordToId0;
        }
      }
    }
  }

  /**
   * The words of `words` are numbered one to one by the ids lo .. hi - 1,
   * so there are hi - lo of them.
   */
  lemma {:induction false} NumberedCount(words: set<string>, lo: nat, hi: nat,
                                         wordToId: map<string, nat>, idToWord: map<nat, string>)
    requires lo <= hi
    requires forall w :: w in words ==> w in wordToId && lo <= wordToId[w] < hi
    requires forall w :: w in words ==> wordToId[w] in idToWord && idToWord[wordToId[w]] == w
    requires forall id :: lo <= id < hi ==> id in idToWord && idToWord[id] in words
    requires forall id :: lo <= id < hi ==> wordToId[idToWord[id]] == id
    ensures |words| == hi - lo
    decreases hi - lo
  {
    if lo == hi {
      assert words == {};
    } else {
      var x := idToWord[hi - 1];
      var rest := words - {x};
      NumberedCount(rest, lo, hi - 1, wordToId, idToWord);
      assert words == rest + {x};
    }
  }

  /** The counter went from `nextId0` to `nextId`, one step per word of `added`. */
  ghost predicate AdvancedBy(nextId0: nat, nextId: nat, added: set<string>)
  {
    nextId == nextId0 + |added|
  }

  /**
   * The tables grew from `wordToId0`, `idToWord0` with counter `nextId0`:
   * every earlier entry is kept, the new words are numbered consecutively
   * from nextId0, and the counter advanced by the number of new words.
   */
  ghost predicate Grown(wordToId0: map<string, nat>, idToWord0: map<nat, string>, nextId0: nat,
                        wordToId: map<string, nat>, idToWord: map<nat, string>, nextId: nat)
  {
    && NumberedFrom(wordToId0, idToWord0, nextId0, wordToId, idToWord, nextId)
    && AdvancedBy(nextId0, nextId, wordToId.Keys - wordToId0.Keys)
  }

  /** Before any word is added, the tables have grown from themselves: nothing is new. */
  lemma GrownStart(wordToId: map<string, nat>, idToWord: map<nat, string>, nextId: nat)
    requires InternTables(wordToId, idToWord, nextId)
    ensures Grown(wordToId, idToWord, nextId, wordToId, idToWord, nextId)
  {
    assert wordToId.Keys - wordToId.Keys == {};
  }

  /**
   * Consecutive numbering of the new words in inverse tables means the
   * counter advanced by exactly the number of new words.
   */
  lemma NewWordsCount(wordToId0: map<string, nat>, idToWord0: map<nat, string>, nextId0: nat,
                      wordToId: map<string, nat>, idToWord: map<nat, string>, nextId: nat)
    requires InternTables(wordToId, idToWord, nextId)
    requires NumberedFrom(wordToId0, idToWord0, nextId0, wordToId, idToWord, nextId)
    ensures Grown(wordToId0, idToWord0, nextId0, wordToId, idToWord, nextId)
  {
    NumberedCount(wordToId.Keys - wordToId0.Keys, nextId0, nextId, wordToId, idToWord);
  }
}
