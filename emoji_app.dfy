/** `predict_emojis`, the handler behind the web form, and its `id2label`
    table. The classifier call `pipe(text)[0]` is not modelled: its output,
    one record per class, is the parameter `probs`. */
module EmojiApp {
  import opened Wrappers
  import opened PyStrings
  import opened Ranking

  /** The exceptions `predict_emojis` raises once the classifier has answered. */
  datatype Error =
    | ValueError(literal: string)  // `int()` refused the text after the last `_`
    | KeyError(key: int)           // the parsed index is not a key of `id2label`

  /** `id2label`: class `i` is shown as `Glyphs[i]`, for `i` in 0..19. Each
      glyph is an opaque string; the flag is two code points. */
  const Glyphs: seq<string> := [
    "❤", "😍", "😂", "💕", "🔥", "😊", "😎", "✨", "💙", "😘",
    "📷", "🇺🇸", "☀", "💜", "😉", "💯", "😁", "🎄", "📸", "😜"
  ]

  /** The `top_k` default of `predict_emojis`; the web form's slider offers 1 to 5. */
  const DefaultTopK: nat := 3

  /** The table has 20 glyphs, none empty, none holding a space, no two alike. */
  lemma GlyphTable()
    ensures |Glyphs| == 20
    ensures forall i :: 0 <= i < |Glyphs| ==> Glyphs[i] != [] && ' ' !in Glyphs[i]
    ensures forall i, j :: 0 <= i < j < |Glyphs| ==> Glyphs[i] != Glyphs[j]
  {
  }

  /** `id2label[i]`: succeeds exactly on the keys 0..19, with a glyph of the
      table, which is never empty and holds no space; any other key raises
      KeyError carrying that key. */
  function Lookup(i: int): (r: Result<string, Error>)
    ensures r.Ok? <==> 0 <= i < 20
    ensures r.Ok? ==> r.value in Glyphs && r.value != [] && ' ' !in r.value
    ensures r.Err? ==> r.error == KeyError(i)
  {
    GlyphTable();
    if 0 <= i < |Glyphs| then Ok(Glyphs[i]) else Err(KeyError(i))
  }

  /** Distinct keys give distinct glyphs. */
  lemma LookupInjective(i: int, j: int)
    ensures Lookup(i).Ok? && Lookup(j).Ok? ==> (Lookup(i).value == Lookup(j).value <==> i == j)
  {
    GlyphTable();
    if 0 <= i < 20 && 0 <= j < 20 && i != j {
      if i < j {
        assert Glyphs[i] != Glyphs[j];
      } else {
        assert Glyphs[j] != Glyphs[i];
      }
    }
  }

  /** What `int()` makes of a text: its value, or the ValueError it raises. */
  function IntOrValueError(t: string): Result<int, Error>
  {
    match ParseInt(t)
    case Some(i) => Ok(i)
    case None => Err(ValueError(t))
  }

  /** `int(label.split("_")[-1])`. */
  function ParseIndex(name: string): Result<int, Error>
  {
    var pieces := Split(name, '_');
    IntOrValueError(pieces[|pieces| - 1])
  }

  /** The index is read from the text after the LAST `_` of the label, and a
      label without `_` is read whole. */
  lemma {:induction false} ParseIndexReadsLastSegment(prefix: string, tail: string)
    requires '_' !in tail
    ensures ParseIndex(prefix + "_" + tail) == IntOrValueError(tail)
    ensures ParseIndex(tail) == IntOrValueError(tail)
  {
    LastPieceAfter(prefix, '_', tail);
    SplitWithoutSeparator(tail, '_');
  }

  /** The classifier's labels `LABEL_<n>` read back as `n`; for instance
      `LABEL_12` is class 12. */
  lemma LabelIndexRoundTrip(prefix: string, n: nat)
    ensures ParseIndex(prefix + "_" + Decimal(n)) == Ok(n)
  {
    var d := Decimal(n);
    DigitsExclude(d, '_');
    ParseIndexReadsLastSegment(prefix, d);
    DecimalReadsBack(n);
  }

  /** The glyph for one classifier record:
      `id2label[int(d["label"].split("_")[-1])]`. A glyph is one of the
      table, never empty and without spaces; a KeyError carries an index
      outside 0..19. */
  function EmojiFor(e: Entry): (r: Result<string, Error>)
    ensures r.Ok? ==> r.value in Glyphs && r.value != [] && ' ' !in r.value
    ensures r.Err? && r.error.KeyError? ==> !(0 <= r.error.key < 20)
  {
    var i :- ParseIndex(e.classLabel);
    Lookup(i)
  }

  /** How a record fares, by the text `tail` after the last `_` of its label
      (or the whole label when it holds no `_`): ValueError exactly when
      `int()` refuses `tail`, KeyError exactly when `tail` is an integer
      outside 0..19, and otherwise the glyph of that integer. */
  lemma EmojiForClassifies(e: Entry, prefix: string, tail: string)
    requires '_' !in tail
    requires e.classLabel == prefix + "_" + tail || e.classLabel == tail
    ensures (EmojiFor(e).Err? && EmojiFor(e).error.ValueError?) <==> ParseInt(tail).None?
    ensures (EmojiFor(e).Err? && EmojiFor(e).error.KeyError?) <==>
              ParseInt(tail).Some? && !(0 <= ParseInt(tail).value < 20)
    ensures EmojiFor(e).Ok? ==> ParseInt(tail).Some? && EmojiFor(e).value == Glyphs[ParseInt(tail).value]
  {
    ParseIndexReadsLastSegment(prefix, tail);
    assert ParseIndex(e.classLabel) == IntOrValueError(tail);
  }

  /** `predict_emojis(text, top_k)` once `pipe(text)[0]` has returned `probs`:
      the glyphs of the `top_k` best-scored records, joined by single spaces.
      It answers exactly when every selected record has a glyph; otherwise
      it raises the exception of the first selected record that has none
      (`" ".join` consumes the whole generator before joining, so nothing is
      returned when any record fails). */
  function PredictEmojis(probs: seq<Entry>, topK: nat): (r: Result<string, Error>)
    ensures var top := TopK(probs, topK);
            r.Ok? <==> forall i :: 0 <= i < |top| ==> EmojiFor(top[i]).Ok?
    ensures var top := TopK(probs, topK);
            r.Err? ==>
              exists i :: 0 <= i < |top| && EmojiFor(top[i]) == Err(r.error)
                          && forall j :: 0 <= j < i ==> EmojiFor(top[j]).Ok?
  {
    var glyphs :- MapAll(EmojiFor, TopK(probs, topK));
    Ok(Join(glyphs, " "))
  }

  /** The reply is the glyphs of the selected records, in rank order, joined
      by single spaces: it is empty exactly when nothing is selected
      (`top_k = 0` or no records), never starts or ends with a space, and
      splitting it on `" "` gives back one glyph per selected record. */
  lemma ReplyRecoversGlyphs(probs: seq<Entry>, topK: nat)
    requires PredictEmojis(probs, topK).Ok?
    ensures var reply := PredictEmojis(probs, topK).value;
            && (reply == "" <==> topK == 0 || probs == [])
            && (reply != "" ==> reply[0] != ' ' && reply[|reply| - 1] != ' ')
    ensures var reply := PredictEmojis(probs, topK).value;
            var top := TopK(probs, topK);
            top != [] ==>
              && |Split(reply, ' ')| == |top|
              && forall i :: 0 <= i < |top| ==> Split(reply, ' ')[i] == EmojiFor(top[i]).value
  {
    var top := TopK(probs, topK);
    var glyphs := MapAll(EmojiFor, top).value;
    assert PredictEmojis(probs, topK).value == Join(glyphs, " ");
    forall i | 0 <= i < |glyphs| ensures glyphs[i] != [] && ' ' !in glyphs[i] {
      assert glyphs[i] == EmojiFor(top[i]).value;
    }
    JoinEdges(glyphs, " ");
    if glyphs != [] {
      assert glyphs[0][0] in glyphs[0];
      var last := glyphs[|glyphs| - 1];
      assert last[|last| - 1] in last;
      SplitJoin(glyphs, ' ');
    }
  }

  /** The glyphs in a reply are distinct exactly when the selected records'
      labels name distinct classes. */
  lemma ReplyGlyphsDistinct(probs: seq<Entry>, topK: nat, i: nat, j: nat)
    requires PredictEmojis(probs, topK).Ok?
    requires i < |TopK(probs, topK)| && j < |TopK(probs, topK)|
    ensures var top := TopK(probs, topK);
            var glyphs := Split(PredictEmojis(probs, topK).value, ' ');
            && |glyphs| == |top|
            && (glyphs[i] == glyphs[j] <==> ParseIndex(top[i].classLabel) == ParseIndex(top[j].classLabel))
  {
    var top := TopK(probs, topK);
    ReplyRecoversGlyphs(probs, topK);
    var a, b := ParseIndex(top[i].classLabel), ParseIndex(top[j].classLabel);
    LookupInjective(a.value, b.value);
  }

  /** With `top_k = 1` the reply is the glyph of the first record of highest
      score (or its exception); with `top_k = 0` or no records it is empty. */
  lemma ReplyExtremes(probs: seq<Entry>)
    ensures probs != [] ==> PredictEmojis(probs, 1) == EmojiFor(ArgMax(probs))
    ensures PredictEmojis(probs, 0) == Ok("")
    ensures forall k: nat :: PredictEmojis([], k) == Ok("")
  {
    if probs != [] {
      TopOneIsArgMax(probs);
      var top := TopK(probs, 1);
      assert top[1..] == [];
    }
  }

  /** The label the classifier gives class `i`: `LABEL_<i>`. */
  function ClassLabel(i: nat): string
  {
    "LABEL" + "_" + Decimal(i)
  }

  /** An answer as the classifier gives it: one record per class of the
      table, record `i` labelled `LABEL_<i>`, scores arbitrary. */
  predicate IsClassifierOutput(probs: seq<Entry>) {
    |probs| == |Glyphs| && forall i :: 0 <= i < |probs| ==> probs[i].classLabel == ClassLabel(i)
  }

  /** `LABEL_<i>` names class `i`. */
  lemma ClassLabelIndex(i: nat)
    ensures ParseIndex(ClassLabel(i)) == Ok(i)
  {
    LabelIndexRoundTrip("LABEL", i);
  }

  /** A record of such an answer is the record of the class its label
      names, and no other record of the answer is equal to it. */
  lemma ClassOf(probs: seq<Entry>, e: Entry) returns (a: nat)
    requires IsClassifierOutput(probs) && e in probs
    ensures a < |probs| && probs[a] == e
    ensures ParseIndex(e.classLabel) == Ok(a) && EmojiFor(e) == Ok(Glyphs[a])
    ensures multiset(probs)[e] == 1
  {
    a :| 0 <= a < |probs| && probs[a] == e;
    ClassLabelIndex(a);
    forall c | 0 <= c < |probs| && c != a ensures probs[c] != probs[a] {
      ClassLabelIndex(c);
    }
    OnceCounted(probs, a);
  }

  /** On an answer of the classifier the handler never fails, and the
      selected records name pairwise distinct classes. */
  lemma ClassifierOutputSelection(probs: seq<Entry>, topK: nat)
    requires IsClassifierOutput(probs)
    ensures PredictEmojis(probs, topK).Ok?
    ensures var top := TopK(probs, topK);
            forall i, j :: 0 <= i < j < |top| ==> ParseIndex(top[i].classLabel) != ParseIndex(top[j].classLabel)
  {
    var top := TopK(probs, topK);
    forall i | 0 <= i < |top| ensures EmojiFor(top[i]).Ok? {
      assert top[i] in multiset(top);
      var a := ClassOf(probs, top[i]);
    }
    forall i, j | 0 <= i < j < |top| ensures ParseIndex(top[i].classLabel) != ParseIndex(top[j].classLabel) {
      assert top[i] in multiset(top) && top[j] in multiset(top);
      var a := ClassOf(probs, top[i]);
      var b := ClassOf(probs, top[j]);
      if a == b {
        TwiceCounted(top, i, j);
      }
    }
  }

  /** For `top_k` from 1 up to the 20 classes, the reply to an answer of the
      classifier holds exactly `top_k` glyphs of the table, no two alike. */
  lemma ClassifierOutputReply(probs: seq<Entry>, topK: nat)
    requires IsClassifierOutput(probs)
    requires 1 <= topK
    ensures PredictEmojis(probs, topK).Ok?
    ensures var glyphs := Split(PredictEmojis(probs, topK).value, ' ');
            && |glyphs| == (if topK < 20 then topK else 20)
            && (forall i :: 0 <= i < |glyphs| ==> glyphs[i] in Glyphs)
            && (forall i, j :: 0 <= i < j < |glyphs| ==> glyphs[i] != glyphs[j])
  {
    var top := TopK(probs, topK);
    ClassifierOutputSelection(probs, topK);
    ReplyRecoversGlyphs(probs, topK);
    var glyphs := Split(PredictEmojis(probs, topK).value, ' ');
    forall i, j | 0 <= i < j < |glyphs| ensures glyphs[i] != glyphs[j] {
      ReplyGlyphsDistinct(probs, topK, i, j);
    }
  }

  /** A label `<prefix>_12`, such as `LABEL_12`, is shown as the sun. */
  lemma SunExample(prefix: string, score: real)
    ensures EmojiFor(Entry(prefix + "_" + "12", score)) == Ok("☀")
  {
    assert EmojiFor(Entry(prefix + "_" + "12", score)) == Ok(Glyphs[12]) by {
      assert Decimal(12) == "12";
      LabelIndexRoundTrip(prefix, 12);
    }
    assert Glyphs[12] == "☀";
  }

  /** A label `<prefix>_20`, such as `LABEL_20`, parses but is not a key of
      the table: KeyError. */
  lemma KeyErrorExample(prefix: string, score: real)
    ensures EmojiFor(Entry(prefix + "_" + "20", score)) == Err(KeyError(20))
  {
    assert Decimal(20) == "20";
    LabelIndexRoundTrip(prefix, 20);
  }

  /** A label `<prefix>_x`, such as `LABEL_x`, whose suffix is not an
      integer: ValueError on that suffix. */
  lemma ValueErrorExample(prefix: string, score: real)
    ensures EmojiFor(Entry(prefix + "_" + "x", score)) == Err(ValueError("x"))
  {
    assert ParseInt("x") == None by {
      assert "x"[0] == 'x';
    }
    ParseIndexReadsLastSegment(prefix, "x");
  }
}
