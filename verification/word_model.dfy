/** The vocabulary record `WordInfo` and its value semantics. */
module WordModel {

  /** A record's identity for list rendering. Foundation draws it at random
      when the record is built; the model treats it as an opaque value. */
  datatype Uuid = Uuid(bits: nat)

  /** An immutable record: every field is a `let` in the source, so a record
      never changes once built. */
  datatype WordInfo = WordInfo(id: Uuid, word: string, phonetic: string, chineseMeaning: string)

  /** The custom `==`: the three text fields decide, the `id` does not. */
  predicate Same(a: WordInfo, b: WordInfo)
  {
    && a.word == b.word
    && a.phonetic == b.phonetic
    && a.chineseMeaning == b.chineseMeaning
  }

  /** Swift's `==` on `[WordInfo]`: same length, elementwise `Same`. */
  predicate SameList(a: seq<WordInfo>, b: seq<WordInfo>)
  {
    |a| == |b| && forall k :: 0 <= k < |a| ==> Same(a[k], b[k])
  }

  /** The values `hash(into:)` hands to the hasher, in order. */
  function HashFeed(w: WordInfo): seq<string>
  {
    [w.word, w.phonetic, w.chineseMeaning]
  }

  /** A hasher run over a feed: `combine` absorbs one value into the state.
      Swift seeds its hasher at random, so seed and mixing are parameters. */
  function Absorb(state: int, feed: seq<string>, combine: (int, string) -> int): int
    decreases |feed|
  {
    if |feed| == 0 then state else Absorb(combine(state, feed[0]), feed[1..], combine)
  }

  function Hash(w: WordInfo, seed: int, combine: (int, string) -> int): int
  {
    Absorb(seed, HashFeed(w), combine)
  }

  /** `==` is structural equality once the ids are made to agree. */
  lemma SameIgnoresId(a: WordInfo, b: WordInfo)
    ensures Same(a, b) <==> a.(id := b.id) == b
  {
  }

  /** Records built from the same three strings are equal whatever their ids. */
  lemma FreshIdsStillSame(i: Uuid, j: Uuid, word: string, phonetic: string, chineseMeaning: string)
    ensures Same(WordInfo(i, word, phonetic, chineseMeaning), WordInfo(j, word, phonetic, chineseMeaning))
  {
  }

  /** `==` is an equivalence relation. */
  lemma SameIsEquivalence(a: WordInfo, b: WordInfo, c: WordInfo)
    ensures Same(a, a)
    ensures Same(a, b) ==> Same(b, a)
    ensures Same(a, b) && Same(b, c) ==> Same(a, c)
  {
  }

  /** The hash reads exactly what `==` reads: two records feed the hasher
      the same values if and only if they are equal. */
  lemma HashFeedMatchesSame(a: WordInfo, b: WordInfo)
    ensures Same(a, b) <==> HashFeed(a) == HashFeed(b)
  {
    if HashFeed(a) == HashFeed(b) {
      assert HashFeed(a)[0] == HashFeed(b)[0];
      assert HashFeed(a)[1] == HashFeed(b)[1];
      assert HashFeed(a)[2] == HashFeed(b)[2];
    }
  }

  /** The `Hashable` law: equal records hash equally, for every seed and
      every mixing function. */
  lemma HashRespectsSame(a: WordInfo, b: WordInfo, seed: int, combine: (int, string) -> int)
    requires Same(a, b)
    ensures Hash(a, seed, combine) == Hash(b, seed, combine)
  {
    HashFeedMatchesSame(a, b);
  }
}
