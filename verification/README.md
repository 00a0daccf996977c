# movie_recommend, modelled in Dafny

This project models the discrete core of the movie recommender's two
algorithms and proves properties about it.

- **word2vec preprocessing** (`Word2Vec._subsampling`). Tokens are counted.
  The vocabulary is ranked by descending count and numbered
  `0 .. word_size-1` in `int_to_vocab`, with the inverse map in
  `vocab_to_int`. Tokens counted at most `min_count` times are dropped from
  the stream, but they keep their ids. Each remaining occurrence is then
  kept or dropped by a random draw. What is left is encoded as ids.
- **word2vec batching** (`_get_target`, `_get_batches`). The stream is cut
  into `len // batch_size` full batches and the remainder is dropped. Every
  centre of a batch is paired with the distinct values in a window of
  random radius `1 .. window_size` around it, inside the batch. A matrix of
  negative samples of shape `(len(y), window_size)` is drawn from the whole
  stream.
- **user-based collaborative filtering** (`UserCF`). Two users are compared
  by the cosine similarity of their rated-movie lists. The `user_n` most
  similar users become the neighbours. Every movie the target user has not
  rated is scored by the sum of `similarity * rating / 5` over the
  neighbours who rated it. The `item_n` best movies are returned.

Modules:

- `Seqs` (`seqs.dfy`): shared sequence vocabulary. It covers
  duplicate-freedom, subsequences, first-occurrence `Distinct` (the key order
  of a `Counter` built from a list), order-keeping filters, set
  difference, and Python's `s[:n]`.
- `Ranking` (`ranking.dfy`): a stable descending sort (Python's
  `sorted(..., reverse=True)`) and the top-`n` cut of scored pairs.
- `Preprocess` (`preprocess.dfy`): vocabulary, trimming, subsampling.
- `Batching` (`batching.dfy`): windows, pair lists, negatives, batches.
- `UserCF` (`usercf.dfy`): similarity, neighbours, candidates, interest,
  recommendation.

Random draws are parameters:

- The subsampling draws become a `keep` mask. `keep[k]` is the outcome of
  `random.random() < p_drop[word]` for the k-th trimmed token.
- The window radii become a sequence `radii`, one per stream position.
- The negative-sample positions become a function `draw`, reduced modulo the
  stream length.
- `math.sqrt` becomes a parameter `sqrt` that must be a square root on the
  naturals (`IsSqrt`).

## Model

| member | source | states |
|---|---|---|
| `Seqs.Distinct` | content_rec/word2vec.py:128 | each distinct value of the input exactly once and nothing else, as the keys of `Counter` |
| `Seqs.Difference` | model/usercf.py:54 | `set(a) - set(b)`: exactly the values of `a` not in `b`, duplicate-free when `a` is |
| `Seqs.SelectIsSubseq` | content_rec/word2vec.py:143-144 | filtering the trimmed tokens by per-token draws yields a subsequence of them |
| `Seqs.SelectAt` | content_rec/word2vec.py:143-144 | the draw for the k-th trimmed token decides whether it survives: the result has one element per kept draw, and a kept token sits at the position given by the number of kept draws before it |
| `Ranking.SortDesc` | content_rec/word2vec.py:131 | `sorted(..., reverse=True)` yields a permutation of its input in non-increasing score order, duplicate-free when the input is |
| `Ranking.TopScored` | model/usercf.py:42-44 | the sorted cut `[:n]` of scored pairs is non-increasing, drawn from the input, of Python slice length, keeps items distinct, and every pair it cuts scores no higher than every pair it keeps |
| `Ranking.KeptOutrankCut` | model/usercf.py:81-82 | after sorting and cutting, every dropped entry scores no higher than any kept one |
| `Preprocess.SortedVocab` | content_rec/word2vec.py:128-131 | each distinct token exactly once, as many as there are distinct tokens, counts non-increasing along the ranking |
| `Preprocess.Invert` | content_rec/word2vec.py:135 | `vocab_to_int` has the words of `int_to_vocab` as keys and undoes it |
| `Preprocess.VocabOf` | content_rec/word2vec.py:133-135 | both maps built from a ranking: dense ids, `word_size` equal to the ranking's length, and each map the inverse of the other |
| `Preprocess.BuildVocab` | content_rec/word2vec.py:128-135 | ids are exactly `0 .. word_size-1`, `word_size` is the number of distinct tokens, every token (rare ones included) has an id, the two maps are mutual inverses, and a smaller id never has a smaller count |
| `Preprocess.KeepFrequent` | content_rec/word2vec.py:129-130 | a subsequence in which each token occurs as often as in the input if its corpus count exceeds `min_count`, and never otherwise |
| `Preprocess.Trim` | content_rec/word2vec.py:129-130 | `trim_word` is a subsequence of the tokens holding every occurrence of each token counted more than `min_count` times and no occurrence of any other |
| `Preprocess.TrimMembers` | content_rec/word2vec.py:129-130 | every trimmed token is a corpus token counted more than `min_count` times |
| `Preprocess.TrimEmpty` | content_rec/word2vec.py:129-130 | the trimmed stream is empty exactly when no token is counted more than `min_count` times |
| `Preprocess.MapIdsSubseq` | content_rec/word2vec.py:145 | encoding preserves the subsequence relation |
| `Preprocess.Subsample` | content_rec/word2vec.py:118-146 | every token gets an id; the training stream is a subsequence of the encoded trimmed stream, one id per kept draw, and the id of the k-th trimmed token, when its draw keeps it, sits at the position given by the number of kept draws before it |
| `Preprocess.Subsampling` | content_rec/word2vec.py:136-142 | fails (division by zero in `count / total_count`) exactly when there are tokens but none is counted more than `min_count` times; otherwise yields the subsampled corpus |
| `Preprocess.SubsampledIdsValid` | content_rec/word2vec.py:143-145 | `word_size` (`len(int_to_vocab)`) is the number of distinct tokens, ids are `0 .. word_size-1`, and every id in the training stream is below `word_size` and names a token counted more than `min_count` times |
| `Preprocess.KeepAllDecodesToTrim` | content_rec/word2vec.py:143-145 | when every draw keeps its token, decoding the training stream through `int_to_vocab` gives back the trimmed stream |
| `Batching.Targets` | content_rec/word2vec.py:148-159 | the targets of centre `idx` are duplicate-free and are exactly the values at positions `j != idx` with `idx - R <= j <= idx + R` inside the batch |
| `Batching.TargetLists` | content_rec/word2vec.py:172-173 | one target list per centre; list `i` is duplicate-free and holds exactly the values at positions `j != i` within centre `i`'s own radius inside the batch |
| `Batching.Pairs` | content_rec/word2vec.py:171-175 | `x` and `y` have equal length, the sum of the target counts; centre `i` fills the segment after the targets of the earlier centres with its value, side by side with its targets |
| `Batching.PairsAreSkipGrams` | content_rec/word2vec.py:171-175 | every `(x[k], y[k])` joins a centre to a value in its window |
| `Batching.Negatives` | content_rec/word2vec.py:176-177 | the negative matrix has `len(y)` rows of `window_size` entries, each an item of the training stream |
| `Batching.MakeBatch` | content_rec/word2vec.py:168-178 | one batch: `x`, `y` and `z` have the same length, the pairs follow the segment layout and are window pairs, and the rows of `z` have width `window_size` with entries from the stream |
| `Batching.BatchSlices` | content_rec/word2vec.py:166-170 | `len // batch_size` batches of exactly `batch_size` consecutive stream items, with the remainder shorter than one batch |
| `Batching.BatchesCoverPrefix` | content_rec/word2vec.py:166-170 | the batches laid end to end are exactly the first `n_batches * batch_size` stream items |
| `Batching.SkipGramIsContextPair` | content_rec/word2vec.py:155-158 | radii of at most `window_size` keep every pair within `window_size` positions |
| `Batching.MakeBatchIsGood` | content_rec/word2vec.py:168-177 | a batch built with radii of at most `window_size` has `x` and `y` laid out exactly as the centre/target segments of its slice, pairs within `window_size` positions, and negative rows of width `window_size` from the stream |
| `Batching.BatchAt` | content_rec/word2vec.py:168-177 | batch `b` is built from the `b`-th slice and the radii drawn for its positions: `x` and `y` are exactly that slice's centre/target segments, `x`, `y`, `z` have equal length, pairs lie within `window_size`, and negative rows have width `window_size` with stream entries |
| `Batching.Batches` | content_rec/word2vec.py:161-178 | a negative `batch_size` yields no batch; a positive one yields `len // batch_size` batches; batch `b` has `x` and `y` laid out exactly as the centre/target segments of the `b`-th slice under the radii drawn for it, with matching negative rows from the stream |
| `UserCF.MoviesOf` | model/usercf.py:34-35 | one entry per row of user `u` (so its length is `u`'s row count, as `len()` sees it), and exactly the movies of those rows |
| `UserCF.CosineSim` | model/usercf.py:15-25 | the similarity is 0 exactly when no movie is shared, lies in `[0, 1]`, and its square times the product of the row counts is the square of the number of shared movies |
| `UserCF.OverlapBounds` | model/usercf.py:22-24 | the shared-movie count is at most either row count, so its square is at most their product |
| `UserCF.CosineSymmetric` | model/usercf.py:22-25 | the similarity does not depend on the order of the two users |
| `UserCF.OtherUsers` | model/usercf.py:36 | the other users are duplicate-free and are exactly the users of the table except the target |
| `UserCF.TopNUsers` | model/usercf.py:27-44 | the neighbours are distinct other users, never the target, carry their similarity in `[0, 1]`, are most similar first, number `min(user_n, others)` for `user_n >= 0`, and no user left out is more similar than one kept |
| `UserCF.Candidates` | model/usercf.py:46-55 | the candidates are duplicate-free and are exactly the movies of the table the target user has not rated |
| `UserCF.FirstRating` | model/usercf.py:73-75 | absent exactly when user `u` has no row for movie `m`; otherwise the rating of the first such row |
| `UserCF.Interest` | model/usercf.py:68-79 | the interest is 0 when no neighbour rated the movie, and non-negative when ratings and similarities are |
| `UserCF.InterestAppend` | model/usercf.py:78-79 | the interest is additive over a split of the neighbours |
| `UserCF.UnratedHasNoInterest` | model/usercf.py:71-77 | a movie no neighbour has a row for scores 0 |
| `UserCF.TopMItems` | model/usercf.py:57-82 | the recommendations are candidates with their interest, best first, distinct when the candidates are, `min(item_n, candidates)` of them for `item_n >= 0`, and no candidate left out has a higher interest than one kept |
| `UserCF.Calculate` | model/usercf.py:84-99 | the recommendations are distinct movies of the table the target user never rated, best first, scored by interest over the top neighbours, non-negative when ratings are, and `min(item_n, candidates)` of them for `item_n >= 0` |
| `UserCF.NeverRecommendsRated` | model/usercf.py:52-55 | no movie in a row of the target user is ever recommended |

## Left out

- The `SkipGram` network is not modelled: its embeddings, forward pass, log-sigmoid loss and initialisation are floating-point training code.
- The training loop, the SGD optimiser and the learning-rate decay are not modelled, for the same reason.
- `save_embedding` and `dispaly` are not modelled: they are file I/O and printing.
- Loading the ratings CSV with pandas is not modelled; the table is a sequence of `Rating` rows.
- Punctuation filtering with a regular expression and `jieba` segmentation are foreign code. The model starts from the token list.
- The drop probability `p_drop` and the threshold `1e-5` are not modelled; the draws' outcomes are the `keep` mask. As written, the code keeps a token when `random.random() < p_drop[word]`. So a token is retained with probability `p_drop`, not `1 - p_drop`, and a token with `p_drop <= 0` is never retained.
- Iteration order of Python sets is not specified. `other_users_id` and `candidates_movies` are modelled in order of first appearance, and `target_words` in `_get_target` in window order; equal scores keep that order through the stable sort. Only membership and duplicate-freedom of these are stated.
- Floating point is modelled as exact `real` arithmetic: the similarity, the ratings, `/ 5` and the interest sum.
- `Batching.Batches`: `radii` and `draw` stand for `np.random.randint(1, window_size + 1)` and `np.random.choice`. Each radius drawn for a position inside a full batch must lie in `1 .. window_size`; the radii of the dropped remainder are unconstrained. With `window_size == 0` and at least one full batch, `randint(1, 1)` raises, and that error is not modelled: such inputs are outside the precondition. `batch_size == 0` is excluded because `len // 0` raises `ZeroDivisionError`.
- `Batching.Negatives`: requires a non-empty stream, although `np.random.choice` also accepts an empty one when no sample is taken. Every batch comes from a non-empty stream, so the whole-stream model is unaffected.
- `Batching.BatchSlices`: `batch_size > 0` is a precondition. `len // 0` raises `ZeroDivisionError`, and a negative `batch_size` makes `range(0, len(words), batch_size)` empty, which `Batching.Batches` models as no batches.
- `UserCF.CosineSim`: `math.sqrt` is the parameter `sqrt`, required to be an exact square root.
- `Preprocess.MapIds`: states only that the length is kept; the ids it produces are stated by `Preprocess.SubsampledIdsValid` and `Preprocess.KeepAllDecodesToTrim`.
