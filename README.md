# TweetEval emoji reaction coach: the prediction handler

This project models, in Dafny, the one piece of logic the emoji reaction coach
owns: `predict_emojis` in `app.py`. The handler receives a text and a count
`top_k`. It takes the classifier's answer for the text, which is one
`{label, score}` record per class. It sorts the records by descending score
with Python's stable `sorted`, keeps the first `top_k` records, and reads the
class index after the last `_` of each label (`LABEL_7` is class 7). It then
looks each index up in the fixed 20-entry `id2label` emoji table and joins
the glyphs with single spaces.

The classifier itself is not modelled. Its answer is the parameter `probs`
of `PredictEmojis`. Everything the handler does to that answer is modelled
as pure functions, with lemmas about them:

- `wrappers.dfy`, module `Wrappers`: `Option` and `Result`. A `Result` stands
  for either a value or the Python exception raised instead. `MapAll`
  applies a fallible function to each element in order and stops at the
  first failure.
- `pystrings.dfy`, module `PyStrings`: the parts of Python's `str.split`,
  `str.join` and `int()` that the handler uses. `Split` and `Join` are
  inverses. `Decimal` (`str(n)`) and `ParseInt` (`int(t)`) round-trip.
- `ranking.dfy`, module `Ranking`: the classifier record `Entry`, the stable
  descending sort `SortDesc`, and `TopK` (`sorted(...)[:top_k]`).
  `IsStableSortDesc` is an independent definition of a stable descending
  sort, and `SortDescUnique` proves that `SortDesc` is its only solution.
- `emoji_app.dfy`, module `EmojiApp`: the `id2label` table (`Glyphs`),
  `Lookup`, `ParseIndex`, `EmojiFor` and `PredictEmojis`,
  with the end-to-end properties of the reply.

Scores are only compared, never computed on, so they are `real`.
`top_k` is a `nat`. The web form's slider only offers 1 to 5, but the
handler itself accepts any count from 0 up.

Two consequences of the code are worth stating:

- Ties. Python's `sorted` is stable, also with `reverse=True`. Records with
  equal scores therefore keep the classifier's order (`SortDescStable`,
  `TopKKeepsEarlierTies`, `TieExample`).
- Reply length. The docstring speaks of the top `k` emojis; the reply has
  `min(top_k, len(probs))` glyphs, one per selected record. That is `top_k` whenever the classifier answers for all
  20 classes and `top_k <= 20` (`ClassifierOutputReply`).

## Model

| member | source | states |
|---|---|---|
| Wrappers.MapAll | app.py:66 | the generator inside `" ".join` yields a glyph for every selected record, in order, exactly when every record has one; otherwise the exception is that of the first record that fails, all earlier ones succeeding |
| PyStrings.Split | app.py:66 | `label.split("_")` gives at least one piece, no piece holds the separator, and joining the pieces with the separator gives the label back |
| PyStrings.SplitJoin | app.py:66 | `Join` (`" ".join`) is undone by `Split`: splitting a join of separator-free pieces gives the pieces back, so splitting the reply on `" "` recovers the glyphs |
| PyStrings.JoinEdges | app.py:66 | `Join` of non-empty parts is empty only when there are no parts, and begins and ends with a character of the first and last part |
| PyStrings.SplitWithoutSeparator | app.py:66 | a text without the separator splits into itself alone, so a label with no `_` is read whole |
| PyStrings.LastPieceAfter | app.py:66 | `split(...)[-1]` of `<prefix>_<tail>` is exactly `tail` when `tail` holds no `_` |
| PyStrings.SplitLastPiece | app.py:66 | for every label, `split("_")[-1]` is the text after the last `_`, or the whole label when it has none, so `ParseIndex` reads `int()` of that text |
| PyStrings.Decimal | app.py:66 | `str(n)` is a non-empty run of digits whose value is `n`, without a leading zero unless it is `0` |
| PyStrings.DecimalRoundTrip | app.py:66 | `int()` reads `str(n)` back as `n`, with surrounding whitespace and with a `+` or `-` sign |
| PyStrings.ParseInt | app.py:66 | `int()` raises ValueError on a text with a character other than whitespace, sign or digit, and on a text with no digit |
| Ranking.Insert | app.py:65 | inserting a record adds exactly that record |
| Ranking.InsertSorted | app.py:65 | inserting into a descending sequence keeps it descending |
| Ranking.SortDesc | app.py:65 | the sort is a permutation of the classifier's records, in non-increasing score order |
| Ranking.SortDescStable | app.py:65 | the sort is stable: for every score, the records with that score keep the classifier's order |
| Ranking.SortDescUnique | app.py:65 | any descending, order-preserving arrangement of the records is `SortDesc`, so the result does not depend on the sorting algorithm |
| Ranking.TopK | app.py:65 | the selection has `min(top_k, len(probs))` records, in descending order, all taken from the classifier's records |
| Ranking.TopKIsTopK | app.py:65 | the kept and dropped records together are the classifier's records, and every kept record scores at least as high as every dropped one |
| Ranking.TopKKeepsEarlierTies | app.py:65 | at the cut, records of equal score are kept in classifier order: the kept ones of each score are a prefix of all of that score |
| Ranking.ArgMaxIndex | app.py:65 | the position of the first record of highest score: every record scores at most as high, and every earlier one strictly lower |
| Ranking.TopOneIsArgMax | app.py:65 | with `top_k = 1` the selection is exactly the first record of highest score |
| Ranking.TieExample | app.py:65 | of two equal scores below a third, the record listed first ranks second and is the one kept with `top_k = 2` |
| EmojiApp.GlyphTable | app.py:29-50 | the table has 20 glyphs, each non-empty, none with a space, no two alike |
| EmojiApp.Lookup | app.py:66 | `id2label[i]` succeeds exactly for `i` in 0..19, with a glyph of the table that is non-empty and holds no space, and raises KeyError carrying `i` otherwise |
| EmojiApp.LookupInjective | app.py:29-50 | distinct keys give distinct glyphs |
| EmojiApp.ParseIndexReadsLastSegment | app.py:66 | `ParseIndex` (`int(label.split("_")[-1])`) is `int()` of the text after the last `_`, or of the whole label when there is none, including its ValueError |
| EmojiApp.LabelIndexRoundTrip | app.py:66 | a label `<prefix>_<n>` names class `n` |
| EmojiApp.EmojiFor | app.py:66 | a record's glyph is always one of the table, non-empty and without spaces, and a KeyError always carries an index outside 0..19 |
| EmojiApp.EmojiForClassifies | app.py:66 | for a label whose text after the last `_` is `tail`: ValueError exactly when `int()` refuses `tail`, KeyError exactly when `tail` is an integer outside 0..19, and otherwise the glyph of that integer |
| EmojiApp.PredictEmojis | app.py:53-66 | the handler answers exactly when every selected record has a glyph, and otherwise raises the exception of the first selected record that has none |
| EmojiApp.ReplyRecoversGlyphs | app.py:65-66 | the reply is empty exactly when `top_k = 0` or there are no records, never starts or ends with a space, and splits on `" "` into the selected records' glyphs in rank order |
| EmojiApp.ReplyGlyphsDistinct | app.py:29-50 | two glyphs of a reply are equal exactly when their records name the same class |
| EmojiApp.ReplyExtremes | app.py:53-66 | with `top_k = 1` the reply is the glyph of the first highest-scored record; with `top_k = 0`, and with no records for every `top_k`, it is empty |
| EmojiApp.ClassOf | app.py:66 | a record of the classifier's answer is the single record of the class its `LABEL_<i>` names |
| EmojiApp.ClassifierOutputSelection | app.py:64-66 | on a full classifier answer the handler never fails, and the selected records name distinct classes |
| EmojiApp.ClassifierOutputReply | app.py:64-66 | on a full classifier answer and `1 <= top_k`, the reply holds exactly `min(top_k, 20)` distinct glyphs of the table |
| EmojiApp.SunExample | app.py:42 | a label `<prefix>_12`, such as `LABEL_12`, is shown as the sun glyph |
| EmojiApp.KeyErrorExample | app.py:29-50 | a label `<prefix>_20` raises KeyError(20) |
| EmojiApp.ValueErrorExample | app.py:66 | a label `<prefix>_x` raises ValueError on `"x"` |

## Left out

- Loading the tokenizer, the base model and the adapter, and choosing the device (app.py:10-26). These are calls into foreign libraries and fetches from a model registry.
- The inference `pipe(text)[0]` (app.py:64). It is a neural network with a floating-point softmax. Its answer is the parameter `probs`, and nothing is assumed about it except in `ClassOf`, `ClassifierOutputSelection` and `ClassifierOutputReply`. Those lemmas assume one record per class, labelled `LABEL_0` to `LABEL_19`. That the scores sum to 1 is not modelled.
- Floating point. Scores are real numbers, so NaN scores are not modelled. Python's `sorted` gives no meaningful order for NaN.
- The Gradio interface and `demo.launch()` (app.py:69-83). The slider range 1..5 is not a precondition, because the handler accepts every `top_k >= 0`. A negative `top_k` would slice from the end in Python. It is excluded by `nat`, and the slider cannot produce one.
- `ParseInt`: skips only ASCII whitespace and reads only ASCII digits. Python's `int()` also accepts other Unicode whitespace and Unicode decimal digits. `int()` also allows `_` between digits, but that cannot arise here, because the text after the last `_` holds no `_`.
- `ParseInt`, `Decimal` and `DecimalRoundTrip`: no limit on the number of digits. CPython's `int()` and `str()` raise ValueError beyond `sys.get_int_max_str_digits()` digits (4300 by default, leading zeros included). So a label made of `LABEL_`, 4300 zeros and a `7` raises in Python but is class 7 here. The classifier never produces such labels.
- Glyphs are opaque strings of code points. Grapheme clusters such as the two-code-point flag are not interpreted.
- Idempotence of the handler is not stated as a lemma. Every member is a mathematical function, so equal inputs give equal replies by construction.
