/** The token filter of `parse_image_table` (scripts/table_parser.py,
    lines 18-54): OCR word records in, positioned words out. */
module Tokens {
  import opened Text

  /** One entry of the OCR engine's per-word output: the text, the bounding
      box in pixels and the confidence, already read as an integer; -1
      stands for a confidence that could not be read. */
  datatype RawWord = RawWord(text: string, left: int, top: int, width: int, height: int, conf: int)

  /** A kept word: its stripped text, its box, and its box centre `(cx, cy)`. */
  datatype Word = Word(text: string, left: int, top: int, width: int, height: int, cx: real, cy: real, conf: int)

  /** A record survives the filter when its stripped text is not empty and
      its confidence is unknown (negative) or at least `minConf`. */
  predicate Keeps(r: RawWord, minConf: int)
  {
    Strip(r.text) != "" && !(r.conf >= 0 && r.conf < minConf)
  }

  /** The word built from a kept record. */
  function ToWord(r: RawWord): Word
  {
    Word(Strip(r.text), r.left, r.top, r.width, r.height,
         (r.left as real) + (r.width as real) / 2.0,
         (r.top as real) + (r.height as real) / 2.0,
         r.conf)
  }

  /** The words the filter keeps, in input order. */
  function Kept(raw: seq<RawWord>, minConf: int): seq<Word>
  {
    if raw == [] then []
    else
      var r := raw[|raw| - 1];
      Kept(raw[..|raw| - 1], minConf) + (if Keeps(r, minConf) then [ToWord(r)] else [])
  }

  /** Lines 18-51: one pass over the records, appending each kept word. */
  method FilterWords(raw: seq<RawWord>, minConf: int) returns (words: seq<Word>)
    ensures words == Kept(raw, minConf)
    ensures forall k :: 0 <= k < |words| ==> words[k].text != "" && (words[k].conf < 0 || words[k].conf >= minConf)
  {
    words := [];
    for i := 0 to |raw|
      invariant words == Kept(raw[..i], minConf)
    {
      KeptStep(raw, minConf, i);
      var text := Strip(raw[i].text);
      var conf := raw[i].conf;
      if text == "" {
        continue;
      }
      if conf >= 0 && conf < minConf {
        continue;
      }
      words := words + [ToWord(raw[i])];
    }
    assert raw[..|raw|] == raw;
    forall k | 0 <= k < |words|
      ensures words[k].text != "" && (words[k].conf < 0 || words[k].conf >= minConf)
    {
      KeptWordsPass(raw, minConf, words[k]);
    }
  }

  /** One more record extends the kept words by its own word, if any. */
  lemma KeptStep(raw: seq<RawWord>, minConf: int, i: nat)
    requires i < |raw|
    ensures Kept(raw[..i + 1], minConf) == Kept(raw[..i], minConf) + (if Keeps(raw[i], minConf) then [ToWord(raw[i])] else [])
  {
    assert raw[..i + 1][..i] == raw[..i];
  }

  /** A record that passes the filter contributes its word. */
  lemma {:induction false} KeptContains(raw: seq<RawWord>, minConf: int, i: nat)
    requires i < |raw| && Keeps(raw[i], minConf)
    ensures ToWord(raw[i]) in Kept(raw, minConf)
  {
    var p := raw[..|raw| - 1];
    var last := if Keeps(raw[|raw| - 1], minConf) then [ToWord(raw[|raw| - 1])] else [];
    assert raw[..|raw|] == raw;
    KeptStep(raw, minConf, |raw| - 1);
    if i < |p| {
      assert p[i] == raw[i];
      KeptContains(p, minConf, i);
    } else {
      assert i == |raw| - 1;
      assert last == [ToWord(raw[i])];
    }
  }

  /** Each kept word comes from a record that passes the filter. */
  lemma {:induction false} KeptFrom(raw: seq<RawWord>, minConf: int, w: Word) returns (i: nat)
    requires w in Kept(raw, minConf)
    ensures i < |raw| && Keeps(raw[i], minConf) && w == ToWord(raw[i])
  {
    var p := raw[..|raw| - 1];
    if w in Kept(p, minConf) {
      i := KeptFrom(p, minConf, w);
      assert p[i] == raw[i];
    } else {
      i := |raw| - 1;
    }
  }

  /** A word is kept exactly when some record passes the filter and
      produces it. */
  lemma KeptMembers(raw: seq<RawWord>, minConf: int, w: Word)
    ensures w in Kept(raw, minConf) <==> exists i :: 0 <= i < |raw| && Keeps(raw[i], minConf) && w == ToWord(raw[i])
  {
    if w in Kept(raw, minConf) {
      var i := KeptFrom(raw, minConf, w);
    }
    if exists i :: 0 <= i < |raw| && Keeps(raw[i], minConf) && w == ToWord(raw[i]) {
      var i :| 0 <= i < |raw| && Keeps(raw[i], minConf) && w == ToWord(raw[i]);
      KeptContains(raw, minConf, i);
    }
  }

  /** Every kept word has non-empty text and a confidence that is unknown or
      at least `minConf`. */
  lemma KeptWordsPass(raw: seq<RawWord>, minConf: int, w: Word)
    requires w in Kept(raw, minConf)
    ensures w.text != "" && (w.conf < 0 || w.conf >= minConf)
  {
    var i := KeptFrom(raw, minConf, w);
  }

  lemma {:induction false} KeptNone(raw: seq<RawWord>, minConf: int)
    requires forall i :: 0 <= i < |raw| ==> !Keeps(raw[i], minConf)
    ensures Kept(raw, minConf) == []
  {
    if raw != [] {
      var p := raw[..|raw| - 1];
      assert forall i :: 0 <= i < |p| ==> p[i] == raw[i];
      KeptNone(p, minConf);
    }
  }

  /** Nothing is kept exactly when every record has blank text or a known
      confidence below `minConf`. */
  lemma KeptEmpty(raw: seq<RawWord>, minConf: int)
    ensures Kept(raw, minConf) == [] <==> forall i :: 0 <= i < |raw| ==> !Keeps(raw[i], minConf)
  {
    if forall i :: 0 <= i < |raw| ==> !Keeps(raw[i], minConf) {
      KeptNone(raw, minConf);
    } else {
      var i :| 0 <= i < |raw| && Keeps(raw[i], minConf);
      KeptContains(raw, minConf, i);
    }
  }
}
