/** Texts joined from parts with a separator, and taken apart again. */
module Texts {

  function Join(parts: seq<string>, sep: char): string {
    if |parts| == 0 then "" else if |parts| == 1 then parts[0]
    else Join(parts[..|parts| - 1], sep) + [sep] + parts[|parts| - 1]
  }

  /** The pieces between separators; a text without one is a single piece. */
  function Split(text: string, sep: char): (parts: seq<string>)
    ensures |parts| > 0
  {
    if text == "" then [""] else Extended(Split(text[..|text| - 1], sep), text[|text| - 1], sep)
  }

  /** The pieces after one more character: a separator starts a new one. */
  function Extended(parts: seq<string>, c: char, sep: char): (more: seq<string>)
    requires |parts| > 0
    ensures |more| > 0
  {
    if c == sep then parts + [""] else parts[..|parts| - 1] + [parts[|parts| - 1] + [c]]
  }

  lemma ExtendedLast(parts: seq<string>, part: string, c: char, longer: string, sep: char)
    requires c != sep && longer != "" && part == longer[..|longer| - 1] && c == longer[|longer| - 1]
    ensures Extended(parts + [part], c, sep) == parts + [longer]
  {
    assert part + [c] == longer;
  }

  lemma ExtendedCons(part: string, parts: seq<string>, c: char, sep: char)
    requires |parts| > 0
    ensures Extended([part] + parts, c, sep) == [part] + Extended(parts, c, sep)
  {
  }

  lemma {:induction false} SplitPlain(text: string, sep: char)
    requires sep !in text
    ensures Split(text, sep) == [text]
  {
    if text != "" {
      SplitPlain(text[..|text| - 1], sep);
      ExtendedLast([], text[..|text| - 1], text[|text| - 1], text, sep);
    }
  }

  /** A piece without a separator appended after one is the last piece. */
  lemma {:induction false} SplitSnoc(text: string, part: string, sep: char)
    requires sep !in part
    ensures Split(text + [sep] + part, sep) == Split(text, sep) + [part]
  {
    if part == "" {
      SplitStep(text, sep, sep);
      assert text + [sep] + part == text + [sep];
    } else {
      var whole, shorter := text + [sep] + part, part[..|part| - 1];
      SplitSnoc(text, shorter, sep);
      assert whole[..|whole| - 1] == text + [sep] + shorter;
      ExtendedLast(Split(text, sep), shorter, part[|part| - 1], part, sep);
    }
  }

  /** A piece without a separator put before one is the first piece. */
  lemma {:induction false} SplitCons(part: string, text: string, sep: char)
    requires sep !in part
    ensures Split(part + [sep] + text, sep) == [part] + Split(text, sep)
  {
    if text == "" {
      SplitPlain(part, sep);
      SplitStep(part, sep, sep);
      assert part + [sep] + text == part + [sep];
    } else {
      var shorter, c := text[..|text| - 1], text[|text| - 1];
      SplitCons(part, shorter, sep);
      SplitStep(part + [sep] + shorter, c, sep);
      ExtendedCons(part, Split(shorter, sep), c, sep);
      assert shorter + [c] == text;
      assert part + [sep] + shorter + [c] == part + [sep] + text;
    }
  }

  lemma SplitStep(text: string, c: char, sep: char)
    ensures Split(text + [c], sep) == Extended(Split(text, sep), c, sep)
  {
    assert (text + [c])[..|text|] == text;
  }

  /** Splitting gives the parts back, as long as none holds the separator. */
  lemma {:induction false} SplitJoin(parts: seq<string>, sep: char)
    requires |parts| > 0 && forall part <- parts :: sep !in part
    ensures Split(Join(parts, sep), sep) == parts
  {
    var last := parts[|parts| - 1];
    if |parts| == 1 {
      SplitPlain(last, sep);
    } else {
      var init := parts[..|parts| - 1];
      SplitJoin(init, sep);
      SplitSnoc(Join(init, sep), last, sep);
      assert init + [last] == parts;
    }
  }

  lemma JoinSnoc(parts: seq<string>, part: string, sep: char)
    requires |parts| > 0
    ensures Join(parts + [part], sep) == Join(parts, sep) + [sep] + part
  {
    assert (parts + [part])[..|parts|] == parts;
  }
}
