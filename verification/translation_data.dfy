/** The generator of the translation data, i18n/translate.py: `parse_file`
    reads a tab-separated file of source text and translation, one entry per
    line, and `get_files` picks the data files and the language each one is
    for. */
module TranslationData {
  import opened Wrappers
  import opened Text
  import opened Sequences

  /** Characters `rstrip("\r\n")` removes. */
  predicate IsLineEnd(c: char) {
    c == '\r' || c == '\n'
  }

  /** `line.rstrip("\r\n")`: the line without its trailing run of carriage
      returns and line feeds. */
  function StripLineEnd(line: string): (r: string)
    ensures |r| <= |line| && line[..|r|] == r
    ensures r == [] || !IsLineEnd(r[|r| - 1])
    ensures forall k | |r| <= k < |line| :: IsLineEnd(line[k])
    decreases |line|
  {
    if line != [] && IsLineEnd(line[|line| - 1]) then StripLineEnd(line[..|line| - 1]) else line
  }

  /** The text before the first tab and the text after it, if there is a
      tab. */
  function SplitAtTab(text: string): (r: Option<(string, string)>)
    ensures r.None? <==> '\t' !in text
    ensures r.Some? ==> '\t' !in r.value.0 && text == r.value.0 + ['\t'] + r.value.1
    decreases |text|
  {
    if text == [] then None
    else if text[0] == '\t' then Some(([], text[1..]))
    else
      match SplitAtTab(text[1..])
      case None => None
      case Some((before, after)) =>
        assert text == [text[0]] + (before + ['\t'] + after);
        Some(([text[0]] + before, after))
  }

  /** `text.split("\t", 2)`: at most two splits, so at most three pieces, the
      last one keeping any further tabs. */
  function SplitTabs(text: string): (pieces: seq<string>)
    ensures 1 <= |pieces| <= 3
    ensures |pieces| == 1 <==> '\t' !in text
  {
    match SplitAtTab(text)
    case None => [text]
    case Some((first, rest)) =>
      match SplitAtTab(rest)
      case None => [first, rest]
      case Some((second, third)) => [first, second, third]
  }

  /** The entry one line of a data file contributes, if any: an empty line
      and a line beginning with `#` contribute nothing, and so does a line
      without a tab once its line end is stripped; otherwise the text before
      the first tab is the key and the text up to the next tab the value. */
  function LineEntry(line: string): (r: Option<(string, string)>)
    ensures line == [] || line[0] == '#' ==> r == None
  {
    if line == "" then None
    else if line[0] == '#' then None
    else
      var pieces := SplitTabs(StripLineEnd(line));
      if |pieces| == 1 then None else Some((pieces[0], pieces[1]))
  }

  /** The table the lines make, a later line overriding an earlier one with
      the same key. */
  function Parsed(lines: seq<string>): map<string, string> {
    Table(LineEntry, lines)
  }

  /** The table the entries `f` gives for `xs` make, later entries
      overriding earlier ones. */
  function Table<T>(f: T -> Option<(string, string)>, xs: seq<T>): map<string, string>
    decreases |xs|
  {
    if xs == [] then map[]
    else
      var table := Table(f, xs[..|xs| - 1]);
      match f(xs[|xs| - 1])
      case Some((key, value)) => table[key := value]
      case None => table
  }

  /** `parse_file`, over the lines the file yields in text mode. */
  method ParseFile(lines: seq<string>) returns (result: map<string, string>)
    ensures result == Parsed(lines)
  {
    result := map[];
    for i := 0 to |lines|
      invariant result == Parsed(lines[..i])
    {
      assert lines[..i + 1][..i] == lines[..i];
      var line := lines[i];
      if line == "" {
        continue;
      }
      if line[0] == '#' {
        continue;
      }
      var pieces := SplitTabs(StripLineEnd(line));
      if |pieces| == 1 {
        continue;
      }
      result := result[pieces[0] := pieces[1]];
    }
    assert lines[..|lines|] == lines;
  }

  /** A line without a tab, once its line end is stripped, contributes
      nothing. */
  lemma NoTabNoEntry(line: string)
    requires '\t' !in StripLineEnd(line)
    ensures LineEntry(line) == None
  {
  }

  /** A non-empty line that does not begin with `#` and keeps a tab once
      its line end is stripped contributes the first two tab-separated
      pieces; with `NoTabNoEntry`, a line past the comment test contributes
      exactly when its stripped text has a tab. */
  lemma LineWithTabGivesEntry(line: string)
    requires line != [] && line[0] != '#' && '\t' in StripLineEnd(line)
    ensures var pieces := SplitTabs(StripLineEnd(line));
            LineEntry(line) == Some((pieces[0], pieces[1]))
  {
  }

  /** An entry is read off the stripped line: it is the key, a tab, the
      value and then nothing or a tab and the rest, and neither key nor value
      holds a tab. So no stripped carriage return or line feed is part of an
      entry. */
  lemma EntryShape(line: string)
    requires LineEntry(line).Some?
    ensures var (key, value) := LineEntry(line).value;
            '\t' !in key && '\t' !in value &&
            exists tail | tail == [] || tail[0] == '\t' ::
              StripLineEnd(line) == key + ['\t'] + value + tail
  {
    TabPieces(StripLineEnd(line));
  }

  lemma TabPieces(text: string)
    requires '\t' in text
    ensures var pieces := SplitTabs(text);
            '\t' !in pieces[0] && '\t' !in pieces[1] &&
            exists tail | tail == [] || tail[0] == '\t' :: text == pieces[0] + ['\t'] + pieces[1] + tail
  {
    var (key, rest) := SplitAtTab(text).value;
    match SplitAtTab(rest)
    case None =>
      assert text == key + ['\t'] + rest + [];
    case Some((value, third)) =>
      var tail := ['\t'] + third;
      assert text == key + ['\t'] + value + tail;
  }

  /** Writing an entry as a line and reading the line back gives the entry,
      as long as the key holds no tab and does not begin with `#`, and the
      value holds no tab and does not end in a line-end character. */
  lemma EntryRoundTrip(key: string, value: string)
    requires '\t' !in key && '\t' !in value
    requires key == [] || key[0] != '#'
    requires value == [] || !IsLineEnd(value[|value| - 1])
    ensures LineEntry(key + ['\t'] + value + ['\n']) == Some((key, value))
  {
    var line := key + ['\t'] + value + ['\n'];
    var text := key + ['\t'] + value;
    assert line[..|line| - 1] == text;
    assert StripLineEnd(line) == text;
    SplitAtFirstTab(key, value);
    assert line[0] == text[0];
  }

  /** Any line made of a key, a tab, a value, then nothing or a tab and
      further text, then any run of line ends gives the entry of that key and
      value: a last line without its line feed, a line ending in CR LF and a
      line with a third field are all read this way. */
  lemma EntryRead(key: string, value: string, tail: string, end: string)
    requires '\t' !in key && '\t' !in value
    requires key == [] || key[0] != '#'
    requires tail == [] || tail[0] == '\t'
    requires value + tail == [] || !IsLineEnd((value + tail)[|value + tail| - 1])
    requires forall k | 0 <= k < |end| :: IsLineEnd(end[k])
    ensures LineEntry(key + ['\t'] + value + tail + end) == Some((key, value))
  {
    var rest := value + tail;
    var text := key + ['\t'] + rest;
    var line := key + ['\t'] + value + tail + end;
    assert line == text + end;
    LastOfTabbed(key, rest);
    StripLineEndOf(text, end);
    FirstTwoPieces(key, value, tail);
    assert line[0] == text[0];
  }

  /** Text with a tab after the key does not end in a line end when its
      last part does not. */
  lemma LastOfTabbed(key: string, rest: string)
    requires rest == [] || !IsLineEnd(rest[|rest| - 1])
    ensures var text := key + ['\t'] + rest; !IsLineEnd(text[|text| - 1])
  {
    var text := key + ['\t'] + rest;
    if rest == [] {
      assert text[|text| - 1] == '\t';
    } else {
      assert text[|text| - 1] == rest[|rest| - 1];
    }
  }

  /** The first two of `split("\t", 2)` over a key, a tab, a value and then
      nothing or a tab and further text are the key and the value. */
  lemma FirstTwoPieces(key: string, value: string, tail: string)
    requires '\t' !in key && '\t' !in value
    requires tail == [] || tail[0] == '\t'
    ensures var pieces := SplitTabs(key + ['\t'] + (value + tail));
            |pieces| >= 2 && pieces[0] == key && pieces[1] == value
  {
    SplitAtFirstTab(key, value + tail);
    if tail == [] {
      assert value + tail == value;
    } else {
      assert value + tail == value + ['\t'] + tail[1..];
      SplitAtFirstTab(value, tail[1..]);
    }
  }

  /** Stripping a run of line ends from text that does not end in one gives
      the text back. */
  lemma {:induction false} StripLineEndOf(text: string, end: string)
    requires text == [] || !IsLineEnd(text[|text| - 1])
    requires forall k | 0 <= k < |end| :: IsLineEnd(end[k])
    ensures StripLineEnd(text + end) == text
    decreases |end|
  {
    if end == [] {
      assert text + end == text;
    } else {
      var line := text + end;
      assert line[..|line| - 1] == text + end[..|end| - 1];
      StripLineEndOf(text, end[..|end| - 1]);
    }
  }

  /** The first tab of `before + "\t" + after` is the one after `before` when
      `before` has none. */
  lemma {:induction false} SplitAtFirstTab(before: string, after: string)
    requires '\t' !in before
    ensures SplitAtTab(before + ['\t'] + after) == Some((before, after))
    decreases |before|
  {
    var text := before + ['\t'] + after;
    if before == [] {
      assert text == ['\t'] + after;
    } else {
      assert text[1..] == before[1..] + ['\t'] + after;
      SplitAtFirstTab(before[1..], after);
      assert [text[0]] + before[1..] == before;
    }
  }

  /** The table's keys are exactly the keys of the lines that contribute an
      entry. */
  lemma ParsedKeys(lines: seq<string>, key: string)
    ensures key in Parsed(lines) <==>
              exists i | 0 <= i < |lines| :: LineEntry(lines[i]).Some? && LineEntry(lines[i]).value.0 == key
  {
    TableKeys(LineEntry, lines, key);
  }

  lemma {:induction false} TableKeys<T>(f: T -> Option<(string, string)>, xs: seq<T>, key: string)
    ensures key in Table(f, xs) <==> exists i | 0 <= i < |xs| :: f(xs[i]).Some? && f(xs[i]).value.0 == key
    decreases |xs|
  {
    if xs != [] {
      var init := xs[..|xs| - 1];
      TableKeys(f, init, key);
      if key in Table(f, init) {
        var i :| 0 <= i < |init| && f(init[i]).Some? && f(init[i]).value.0 == key;
        assert xs[i] == init[i];
      }
      if exists i | 0 <= i < |xs| :: f(xs[i]).Some? && f(xs[i]).value.0 == key {
        var i :| 0 <= i < |xs| && f(xs[i]).Some? && f(xs[i]).value.0 == key;
        if i < |init| {
          assert init[i] == xs[i];
        }
      }
    }
  }

  /** A key's value is the one from the last line that gives that key. */
  lemma LastEntryWins(lines: seq<string>, i: nat)
    requires i < |lines| && LineEntry(lines[i]).Some?
    requires forall j | i < j < |lines| :: LineEntry(lines[j]).None? || LineEntry(lines[j]).value.0 != LineEntry(lines[i]).value.0
    ensures var (key, value) := LineEntry(lines[i]).value;
            key in Parsed(lines) && Parsed(lines)[key] == value
  {
    TableLastWins(LineEntry, lines, i);
  }

  lemma {:induction false} TableLastWins<T>(f: T -> Option<(string, string)>, xs: seq<T>, i: nat)
    requires i < |xs| && f(xs[i]).Some?
    requires forall j | i < j < |xs| :: f(xs[j]).None? || f(xs[j]).value.0 != f(xs[i]).value.0
    ensures var (key, value) := f(xs[i]).value;
            key in Table(f, xs) && Table(f, xs)[key] == value
    decreases |xs|
  {
    var init := xs[..|xs| - 1];
    if i < |xs| - 1 {
      forall j | i < j < |init| ensures f(init[j]).None? || f(init[j]).value.0 != f(init[i]).value.0 {
        assert init[j] == xs[j];
      }
      assert init[i] == xs[i];
      TableLastWins(f, init, i);
    }
  }

  // ---------------------------------------------------------------------------
  // get_files

  const DataSuffix := ".data"

  /** The language of a file name matching `^(\w+)\.data$`, whose `$` also
      matches before a final line feed; `\w` is read as ASCII here. */
  function FileLanguage(name: string): (r: Option<string>)
    ensures r.Some? ==> r.value != [] && AllWordChars(r.value) &&
                        (name == r.value + DataSuffix || name == r.value + DataSuffix + "\n")
  {
    var n := |name|;
    if n > 5 && name[n - 5..] == DataSuffix && AllWordChars(name[..n - 5]) then Some(name[..n - 5])
    else if n > 6 && name[n - 6..] == DataSuffix + "\n" && AllWordChars(name[..n - 6]) then Some(name[..n - 6])
    else None
  }

  /** The language a globbed file is read for: the template `_.data` is
      skipped. */
  function DataLanguage(name: string): (r: Option<string>)
    ensures r.Some? ==> r.value != "_" && FileLanguage(name) == r
  {
    match FileLanguage(name)
    case Some(lang) => if lang == "_" then None else Some(lang)
    case None => None
  }

  /** Naming a file after a language code (letters, digits and `_`, other
      than the template's `_`) makes it the data file for that language. */
  lemma DataFileRoundTrip(lang: string)
    requires lang != [] && AllWordChars(lang) && lang != "_"
    ensures DataLanguage(lang + DataSuffix) == Some(lang)
  {
    var name := lang + DataSuffix;
    assert name[..|name| - 5] == lang;
    assert name[|name| - 5..] == DataSuffix;
  }

  /** Anything but a single run of word characters before the suffix is
      refused: in particular a name holding another `.`. */
  lemma DotInStemRefused(stem: string)
    requires '.' in stem
    ensures DataLanguage(stem + DataSuffix) == None
  {
    var k :| 0 <= k < |stem| && stem[k] == '.';
    assert (stem + DataSuffix)[k] == '.';
  }

  /** `get_files`: the language of each globbed file name, in order, the
      names that do not match or name the template skipped. */
  method DataFiles(names: seq<string>) returns (langs: seq<string>)
    ensures langs == FilterMap(DataLanguage, names)
  {
    langs := [];
    for i := 0 to |names|
      invariant langs == FilterMap(DataLanguage, names[..i])
    {
      assert names[..i + 1][..i] == names[..i];
      var m := FileLanguage(names[i]);
      if m == None {
        continue;
      }
      var lang := m.value;
      if lang == "_" {
        continue;
      }
      langs := langs + [lang];
    }
    assert names[..|names|] == names;
  }
}
