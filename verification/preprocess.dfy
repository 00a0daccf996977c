/** The discrete part of `Word2Vec._subsampling`: counting tokens, building
    the two vocabulary maps, dropping rare tokens and applying the
    subsampling draw, all over an already segmented token sequence. */
module Preprocess {
  import opened Seqs
  import opened Ranking

  type Token = string

  /** `Counter(tokens)[w]`: how often `w` occurs. */
  function Count(tokens: seq<Token>, w: Token): nat {
    multiset(tokens)[w]
  }

  /** The vocabulary: `int_to_vocab` and its inverse `vocab_to_int`. */
  datatype Vocab = Vocab(intToVocab: map<nat, Token>, vocabToInt: map<Token, nat>) {
    /** `len(int_to_vocab)`, the embedding tables' row count. */
    function WordSize(): nat { |intToVocab| }
  }

  /** The preprocessed corpus: the vocabulary and the integer training
      stream. */
  datatype Corpus = Corpus(vocab: Vocab, trainData: seq<nat>)

  /** The ids `0 .. n-1`. */
  function Ids(n: nat): (r: set<nat>)
    ensures forall i: nat :: i in r <==> i < n
    ensures |r| == n
  {
    if n == 0 then {} else
      assert n - 1 !in Ids(n - 1);
      Ids(n - 1) + {n - 1}
  }

  /** The distinct tokens ranked by descending count (`sorted_vocab`). The
      tie order is the order of first occurrence, which is the key order of
      the `Counter` that Python's stable sort starts from. */
  function SortedVocab(tokens: seq<Token>): (r: seq<Token>)
    ensures NoDup(r)
    ensures forall w :: w in r <==> w in tokens
    ensures |r| == |Elems(tokens)|
    ensures forall i, j :: 0 <= i < j < |r| ==> Count(tokens, r[i]) >= Count(tokens, r[j])
  {
    var d := Distinct(tokens);
    var score := w => Count(tokens, w) as real;
    var r := SortDesc(d, score);
    SortDescMembers(d, score);
    assert Elems(r) == Elems(tokens);
    CardElems(r);
    assert forall i, j :: 0 <= i < j < |r| ==> score(r[i]) >= score(r[j]);
    r
  }

  /** `{i: word for i, word in enumerate(ranked)}`. */
  function Enumerate(ranked: seq<Token>): (m: map<nat, Token>)
    ensures m.Keys == Ids(|ranked|)
    ensures forall i :: 0 <= i < |ranked| ==> m[i] == ranked[i]
  {
    map i | i in Ids(|ranked|) :: ranked[i]
  }

  /** `{word: i for i, word in m.items()}`: swaps ids and tokens. */
  function Invert(m: map<nat, Token>): (inv: map<Token, nat>)
    requires forall i, j :: i in m && j in m && i != j ==> m[i] != m[j]
    ensures inv.Keys == m.Values
    ensures forall i :: i in m ==> inv[m[i]] == i
  {
    map i | i in m :: m[i] := i
  }

  /** The two vocabulary maps for a ranking of distinct tokens: ids are
      positions in the ranking, and each map undoes the other. */
  function VocabOf(ranked: seq<Token>): (v: Vocab)
    requires NoDup(ranked)
    ensures v.intToVocab.Keys == Ids(|ranked|)
    ensures v.WordSize() == |ranked|
    ensures forall i :: 0 <= i < |ranked| ==> v.intToVocab[i] == ranked[i]
    ensures v.vocabToInt.Keys == Elems(ranked)
    ensures forall i :: i in v.intToVocab ==>
              v.intToVocab[i] in v.vocabToInt && v.vocabToInt[v.intToVocab[i]] == i
    ensures forall w :: w in v.vocabToInt ==>
              v.vocabToInt[w] in v.intToVocab && v.intToVocab[v.vocabToInt[w]] == w
  {
    var itv := Enumerate(ranked);
    var vti := Invert(itv);
    assert itv.Values == Elems(ranked) by {
      forall w | w in ranked ensures w in itv.Values {
        var k :| 0 <= k < |ranked| && ranked[k] == w;
        assert itv[k] == w;
      }
    }
    assert |itv| == |itv.Keys|;
    Vocab(itv, vti)
  }

  /** Builds `int_to_vocab` from the tokens ranked by count and
      `vocab_to_int` by inverting it. */
  function BuildVocab(tokens: seq<Token>): (v: Vocab)
    ensures v.intToVocab.Keys == Ids(|Elems(tokens)|)
    ensures v.WordSize() == |Elems(tokens)|
    ensures v.vocabToInt.Keys == Elems(tokens)
    ensures forall i :: i in v.intToVocab ==>
              v.intToVocab[i] in v.vocabToInt && v.vocabToInt[v.intToVocab[i]] == i
    ensures forall w :: w in v.vocabToInt ==>
              v.vocabToInt[w] in v.intToVocab && v.intToVocab[v.vocabToInt[w]] == w
    ensures forall i, j :: i in v.intToVocab && j in v.intToVocab && i < j ==>
              Count(tokens, v.intToVocab[i]) >= Count(tokens, v.intToVocab[j])
  {
    var sv := SortedVocab(tokens);
    assert Elems(sv) == Elems(tokens);
    VocabOf(sv)
  }

  /** The tokens of `s` whose count in `corpus` exceeds `minCount`, in
      order. */
  function KeepFrequent(s: seq<Token>, corpus: seq<Token>, minCount: int): (r: seq<Token>)
    ensures IsSubseq(r, s)
    ensures forall w :: multiset(r)[w] == if Count(corpus, w) > minCount then multiset(s)[w] else 0
  {
    if |s| == 0 then []
    else
      var rest := KeepFrequent(s[1..], corpus, minCount);
      assert s == [s[0]] + s[1..];
      if Count(corpus, s[0]) > minCount then
        assert ([s[0]] + rest)[1..] == rest;
        [s[0]] + rest
      else
        SubseqOfTail(rest, s);
        rest
  }

  /** `trim_word`: every occurrence of a token counted more than
      `minCount` times, and nothing else, in corpus order. */
  function Trim(tokens: seq<Token>, minCount: int): (r: seq<Token>)
    ensures IsSubseq(r, tokens)
    ensures forall w :: Count(r, w) == if Count(tokens, w) > minCount then Count(tokens, w) else 0
  {
    KeepFrequent(tokens, tokens, minCount)
  }

  /** Each token mapped to its id. */
  function MapIds(s: seq<Token>, vocabToInt: map<Token, nat>): (r: seq<nat>)
    requires forall w :: w in s ==> w in vocabToInt
    ensures |r| == |s|
  {
    if |s| == 0 then [] else [vocabToInt[s[0]]] + MapIds(s[1..], vocabToInt)
  }

  /** `_subsampling` after segmentation. `keep[k]` is the outcome of the
      draw `random.random() < p_drop[word]` for the k-th trimmed token; the
      drop probability itself is not modelled. */
  function Subsample(tokens: seq<Token>, minCount: int, keep: seq<bool>): (c: Corpus)
    requires |keep| == |Trim(tokens, minCount)|
    ensures c.vocab.vocabToInt.Keys == Elems(tokens)
    ensures Elems(Trim(tokens, minCount)) <= c.vocab.vocabToInt.Keys
    ensures IsSubseq(c.trainData, MapIds(Trim(tokens, minCount), c.vocab.vocabToInt))
    ensures |c.trainData| == Kept(keep)
    ensures forall k :: 0 <= k < |keep| && keep[k] ==>
              && Kept(keep[..k]) < |c.trainData|
              && Trim(tokens, minCount)[k] in c.vocab.vocabToInt
              && c.trainData[Kept(keep[..k])] == c.vocab.vocabToInt[Trim(tokens, minCount)[k]]
  {
    var v := BuildVocab(tokens);
    var trim := Trim(tokens, minCount);
    TrimMembers(tokens, minCount);
    var words := Select(trim, keep);
    SelectIsSubseq(trim, keep);
    MapIdsSubseq(words, trim, v.vocabToInt);
    SelectedIdsAt(trim, keep, v.vocabToInt);
    Corpus(v, MapIds(words, v.vocabToInt))
  }

  /** Encoding the selected tokens puts the id of the k-th token, when it is
      kept, at the position given by the number of kept tokens before it. */
  lemma SelectedIdsAt(trim: seq<Token>, keep: seq<bool>, vocabToInt: map<Token, nat>)
    requires |keep| == |trim|
    requires forall w :: w in trim ==> w in vocabToInt
    ensures forall w :: w in Select(trim, keep) ==> w in vocabToInt
    ensures |MapIds(Select(trim, keep), vocabToInt)| == Kept(keep)
    ensures forall k :: 0 <= k < |keep| && keep[k] ==>
              && Kept(keep[..k]) < |MapIds(Select(trim, keep), vocabToInt)|
              && trim[k] in vocabToInt
              && MapIds(Select(trim, keep), vocabToInt)[Kept(keep[..k])] == vocabToInt[trim[k]]
  {
    var words := Select(trim, keep);
    SelectAt(trim, keep);
    forall k | 0 <= k < |keep| && keep[k]
      ensures Kept(keep[..k]) < |MapIds(words, vocabToInt)|
      ensures MapIds(words, vocabToInt)[Kept(keep[..k])] == vocabToInt[trim[k]]
    {
      MapIdsAt(words, vocabToInt, Kept(keep[..k]));
    }
  }

  /** Every id in the training stream is below `word_size` and names a
      token counted more than `minCount` times; the vocabulary still holds
      the rare tokens. */
  lemma SubsampledIdsValid(tokens: seq<Token>, minCount: int, keep: seq<bool>)
    requires |keep| == |Trim(tokens, minCount)|
    ensures var c := Subsample(tokens, minCount, keep);
      && c.vocab.WordSize() == |Elems(tokens)|
      && c.vocab.intToVocab.Keys == Ids(c.vocab.WordSize())
      && forall k :: 0 <= k < |c.trainData| ==>
           c.trainData[k] < c.vocab.WordSize() &&
           Count(tokens, c.vocab.intToVocab[c.trainData[k]]) > minCount
  {
    var trim := Trim(tokens, minCount);
    TrimMembers(tokens, minCount);
    var words := Select(trim, keep);
    EncodedIdsInRange(tokens, minCount, words, BuildVocab(tokens));
  }

  /** Trimmed tokens are corpus tokens whose count exceeds `minCount`. */
  lemma TrimMembers(tokens: seq<Token>, minCount: int)
    ensures forall w :: w in Trim(tokens, minCount) ==> w in tokens && Count(tokens, w) > minCount
  {
    var trim := Trim(tokens, minCount);
    forall w | w in trim ensures w in tokens && Count(tokens, w) > minCount {
      assert Count(trim, w) > 0;
    }
  }

  /** Frequent tokens encode to ids below the word size that decode to
      frequent tokens. */
  lemma EncodedIdsInRange(tokens: seq<Token>, minCount: int, words: seq<Token>, v: Vocab)
    requires v == BuildVocab(tokens)
    requires forall w :: w in words ==> w in tokens && Count(tokens, w) > minCount
    ensures forall w :: w in words ==> w in v.vocabToInt
    ensures forall k :: 0 <= k < |words| ==>
              MapIds(words, v.vocabToInt)[k] < v.WordSize() &&
              Count(tokens, v.intToVocab[MapIds(words, v.vocabToInt)[k]]) > minCount
  {
    forall k | 0 <= k < |words|
      ensures MapIds(words, v.vocabToInt)[k] < v.WordSize()
      ensures Count(tokens, v.intToVocab[MapIds(words, v.vocabToInt)[k]]) > minCount
    {
      MapIdsAt(words, v.vocabToInt, k);
      assert words[k] in words;
    }
  }

  lemma {:induction false} MapIdsAt(s: seq<Token>, vocabToInt: map<Token, nat>, k: nat)
    requires forall w :: w in s ==> w in vocabToInt
    requires k < |s|
    ensures MapIds(s, vocabToInt)[k] == vocabToInt[s[k]]
    decreases |s|
  {
    if k > 0 {
      MapIdsAt(s[1..], vocabToInt, k - 1);
    }
  }

  /** Mapping tokens to ids preserves the subsequence relation. */
  lemma {:induction false} MapIdsSubseq(a: seq<Token>, b: seq<Token>, vocabToInt: map<Token, nat>)
    requires forall w :: w in b ==> w in vocabToInt
    requires IsSubseq(a, b)
    ensures forall w :: w in a ==> w in vocabToInt
    ensures IsSubseq(MapIds(a, vocabToInt), MapIds(b, vocabToInt))
    decreases |b|
  {
    SubseqMembers(a, b);
    if |a| > 0 {
      var ma := MapIds(a, vocabToInt);
      var mb := MapIds(b, vocabToInt);
      if a[0] == b[0] && IsSubseq(a[1..], b[1..]) {
        MapIdsSubseq(a[1..], b[1..], vocabToInt);
        assert a == [a[0]] + a[1..];
        assert ma[0] == mb[0];
      } else {
        MapIdsSubseq(a, b[1..], vocabToInt);
        SubseqOfTail(ma, mb);
      }
    }
  }

  /** With every draw keeping its token, the training stream decodes
      through `int_to_vocab` back to the trimmed stream. */
  lemma KeepAllDecodesToTrim(tokens: seq<Token>, minCount: int, keep: seq<bool>)
    requires |keep| == |Trim(tokens, minCount)|
    requires forall k :: 0 <= k < |keep| ==> keep[k]
    ensures var c := Subsample(tokens, minCount, keep);
      var trim := Trim(tokens, minCount);
      && |c.trainData| == |trim|
      && forall k :: 0 <= k < |trim| ==>
           c.trainData[k] in c.vocab.intToVocab && c.vocab.intToVocab[c.trainData[k]] == trim[k]
  {
    var c := Subsample(tokens, minCount, keep);
    var trim := Trim(tokens, minCount);
    var v := BuildVocab(tokens);
    assert Select(trim, keep) == trim;
    assert c.trainData == MapIds(trim, v.vocabToInt);
    forall k | 0 <= k < |trim|
      ensures c.trainData[k] in c.vocab.intToVocab && c.vocab.intToVocab[c.trainData[k]] == trim[k]
    {
      assert trim[k] in Elems(trim);
      MapIdsAt(trim, v.vocabToInt, k);
    }
  }

  /** `_subsampling` with its failure. When there are tokens but none is
      counted more than `minCount` times, `total_count` is 0 and computing
      the frequencies divides by zero; otherwise the result is the
      subsampled corpus. */
  function Subsampling(tokens: seq<Token>, minCount: int, keep: seq<bool>): (r: Option<Corpus>)
    requires |keep| == |Trim(tokens, minCount)|
    ensures r.None? <==> |tokens| > 0 && forall w :: w in tokens ==> Count(tokens, w) <= minCount
    ensures r.Some? ==> r.value == Subsample(tokens, minCount, keep)
  {
    TrimEmpty(tokens, minCount);
    if |tokens| > 0 && |Trim(tokens, minCount)| == 0 then None
    else Some(Subsample(tokens, minCount, keep))
  }

  /** The trimmed stream is empty exactly when no token is counted more than
      `minCount` times. */
  lemma TrimEmpty(tokens: seq<Token>, minCount: int)
    ensures |Trim(tokens, minCount)| == 0 <==> forall w :: w in tokens ==> Count(tokens, w) <= minCount
  {
    var trim := Trim(tokens, minCount);
    if |trim| == 0 {
      forall w | w in tokens ensures Count(tokens, w) <= minCount {
        assert Count(trim, w) == 0;
      }
    } else {
      assert Count(trim, trim[0]) > 0;
    }
  }
}
