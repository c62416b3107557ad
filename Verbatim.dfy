/** Comment lines and the save of `save_prefs`. A loaded comment line keeps
    its own line feed, and saving it writes one more line feed, which is a
    blank line that the next load raises on. This module states that as a
    lemma about the code as written, then defines the save with comments
    written verbatim and proves that loading and saving a file of comments
    and plain property lines gives the file back. */
module Verbatim {
  import opened Text
  import opened Prefs

  // ---------------------------------------------------------------------------
  // As written

  /** A file made of one comment line, ending in its line feed, loads to that
      line alone; saving it writes the line and then a second line feed; and
      the saved text, whose lines are that line and a bare line feed, raises
      IndexError when loaded again. */
  lemma CommentGainsBlankLine(line: string, sep: string)
    requires Marked(line) && line[|line| - 1] == '\n'
    ensures Parse([line], sep) == Ok(Parsed([line], map[]))
    ensures Render([line], map[], sep) == Ok([line, "\n"])
    ensures Concat([line, "\n"]) == line + "\n"
    ensures Parse([line, "\n"], sep) == Err(IndexError)
  {
    var none: map<string, string> := map[];
    IsCommentSpec(line);
    ParseLast([line], sep);
    assert [line][..0] == [];
    AddCommentLine(Parsed([], none), line, sep);
    assert [] + [line] == [line];
    RenderLast([line], none, sep);
    EmitShape(line, none, sep);
    assert [] + [line, "\n"] == [line, "\n"];
    ConcatAppendTwo([], line, "\n");
    var lines := [line, "\n"];
    assert AllSpace(lines[1]);
    LoadFails(lines, sep);
  }

  // ---------------------------------------------------------------------------
  // Corrected: comments written as they were read

  /** What the save writes for one entry when a comment is written verbatim
      (it already ends in the line feed it was read with) and a key is written
      as `key SEP value` and then a line feed. */
  function EmitVerbatim(item: string, values: map<string, string>, sep: string): Result<seq<string>> {
    match IsComment(item)
    case Err(e) => Err(e)
    case Ok(comment) =>
      if comment then Ok([item])
      else if Strip(item) in values then Ok([item + sep + values[Strip(item)], "\n"])
      else Err(KeyError)
  }

  /** The writes of the corrected save for a list of entries. */
  function RenderVerbatim(entries: seq<string>, values: map<string, string>, sep: string): Result<seq<string>>
    decreases |entries|
  {
    if entries == [] then Ok([])
    else
      match RenderVerbatim(entries[..|entries| - 1], values, sep)
      case Err(e) => Err(e)
      case Ok(w) =>
        match EmitVerbatim(entries[|entries| - 1], values, sep)
        case Err(e) => Err(e)
        case Ok(x) => Ok(w + x)
  }

  /** Saving the first m + 1 entries writes what saving the first m writes,
      then the writes of entry m. */
  lemma RenderVerbatimTake(entries: seq<string>, m: nat, values: map<string, string>, sep: string)
    requires m < |entries|
    requires RenderVerbatim(entries[..m], values, sep).Ok? && EmitVerbatim(entries[m], values, sep).Ok?
    ensures RenderVerbatim(entries[..m + 1], values, sep) ==
      Ok(RenderVerbatim(entries[..m], values, sep).value + EmitVerbatim(entries[m], values, sep).value)
  {
    assert entries[..m + 1][..m] == entries[..m];
    assert entries[..m + 1][m] == entries[m];
  }

  /** The text of two sequences of writes, one after the other. */
  lemma {:induction false} ConcatAppend(ws: seq<string>, xs: seq<string>)
    ensures Concat(ws + xs) == Concat(ws) + Concat(xs)
    decreases |xs|
  {
    if xs != [] {
      var init := xs[..|xs| - 1];
      ConcatAppend(ws, init);
      assert (ws + xs)[..|ws + xs| - 1] == ws + init;
      assert (ws + xs)[|ws + xs| - 1] == xs[|xs| - 1];
    } else {
      assert ws + xs == ws;
    }
  }

  /** A comment line or a plain property line. */
  predicate WellFormed(line: string, sep: string) {
    Marked(line) || PlainProperty(line, sep)
  }

  /** The plain property lines bind pairwise distinct keys. */
  predicate DistinctKeys(lines: seq<string>, sep: string) {
    forall i, j {:trigger PlainKey(lines[i], sep), PlainKey(lines[j], sep)} ::
      0 <= i < j < |lines| && PlainProperty(lines[i], sep) && PlainProperty(lines[j], sep) ==>
        PlainKey(lines[i], sep) != PlainKey(lines[j], sep)
  }

  /** entry is what loading keeps of the line: a comment line itself, or the
      raw key text of a plain property line whose value values holds. */
  predicate KeptAs(line: string, entry: string, values: map<string, string>, sep: string) {
    if Marked(line) then entry == line else SavedAs(line, entry, values, sep)
  }

  /** One entry per line, each kept as its line. */
  predicate AllKept(lines: seq<string>, entries: seq<string>, values: map<string, string>, sep: string) {
    && |entries| == |lines|
    && forall i {:trigger KeptAs(lines[i], entries[i], values, sep)} :: 0 <= i < |lines| ==>
         KeptAs(lines[i], entries[i], values, sep)
  }

  /** Loading one more comment line keeps every line kept and keeps the new one. */
  lemma AllKeptComment(lines: seq<string>, entries: seq<string>, values: map<string, string>, sep: string,
                       line: string)
    requires AllKept(lines, entries, values, sep) && Marked(line)
    ensures AllKept(lines + [line], entries + [line], values, sep)
  {
    var lines', entries' := lines + [line], entries + [line];
    forall i | 0 <= i < |lines'| ensures KeptAs(lines'[i], entries'[i], values, sep) {
      if i < |lines| {
        assert lines'[i] == lines[i] && entries'[i] == entries[i];
        assert KeptAs(lines[i], entries[i], values, sep);
      }
    }
  }

  /** Loading one more plain property line, whose key no earlier plain line
      binds, keeps every line kept and keeps the new one. */
  lemma AllKeptPlain(lines: seq<string>, entries: seq<string>, values: map<string, string>, sep: string,
                     line: string)
    requires AllKept(lines, entries, values, sep) && PlainProperty(line, sep)
    requires forall i {:trigger PlainKey(lines[i], sep)} :: 0 <= i < |lines| && PlainProperty(lines[i], sep) ==>
      PlainKey(lines[i], sep) != PlainKey(line, sep)
    ensures AllKept(lines + [line], entries + [PlainToken(line, sep)],
                    values[PlainKey(line, sep) := PlainValue(line, sep)], sep)
  {
    var key, value := PlainKey(line, sep), PlainValue(line, sep);
    var lines', entries' := lines + [line], entries + [PlainToken(line, sep)];
    PlainShape(line, sep);
    IsCommentSpec(line);
    forall i | 0 <= i < |lines'| ensures KeptAs(lines'[i], entries'[i], values[key := value], sep) {
      if i < |lines| {
        assert lines'[i] == lines[i] && entries'[i] == entries[i];
        assert KeptAs(lines[i], entries[i], values, sep);
        if !Marked(lines[i]) {
          assert PlainKey(lines[i], sep) != key;
          SavedAsExtend(lines[i], entries[i], values, sep, key, value);
        }
      }
    }
  }

  /** Loading a file whose last line is a comment line. */
  lemma LoadCommentLast(lines: seq<string>, sep: string)
    requires lines != [] && Parse(lines[..|lines| - 1], sep).Ok? && Marked(lines[|lines| - 1])
    ensures var p0, line := Parse(lines[..|lines| - 1], sep).value, lines[|lines| - 1];
      Parse(lines, sep) == Ok(Parsed(p0.entries + [line], p0.values))
  {
    IsCommentSpec(lines[|lines| - 1]);
    ParseLast(lines, sep);
    AddCommentLine(Parse(lines[..|lines| - 1], sep).value, lines[|lines| - 1], sep);
  }

  /** A file of comment lines and plain property lines with distinct keys
      loads to one entry per line, each kept as its line. */
  lemma {:induction false} LoadWellFormed(lines: seq<string>, sep: string)
    requires forall i {:trigger WellFormed(lines[i], sep)} :: 0 <= i < |lines| ==> WellFormed(lines[i], sep)
    requires DistinctKeys(lines, sep)
    ensures Parse(lines, sep).Ok?
    ensures AllKept(lines, Parse(lines, sep).value.entries, Parse(lines, sep).value.values, sep)
    decreases |lines|
  {
    if lines != [] {
      var n := |lines| - 1;
      var init, line := lines[..n], lines[n];
      forall i | 0 <= i < n ensures WellFormed(init[i], sep) {
        assert init[i] == lines[i] && WellFormed(lines[i], sep);
      }
      forall i, j | 0 <= i < j < n && PlainProperty(init[i], sep) && PlainProperty(init[j], sep)
        ensures PlainKey(init[i], sep) != PlainKey(init[j], sep)
      {
        assert init[i] == lines[i] && init[j] == lines[j];
        assert PlainKey(lines[i], sep) != PlainKey(lines[j], sep);
      }
      LoadWellFormed(init, sep);
      var p0 := Parse(init, sep).value;
      assert lines == init + [line];
      assert WellFormed(line, sep);
      if Marked(line) {
        AllKeptComment(init, p0.entries, p0.values, sep, line);
        LoadCommentLast(lines, sep);
      } else {
        forall i | 0 <= i < n && PlainProperty(init[i], sep)
          ensures PlainKey(init[i], sep) != PlainKey(line, sep)
        {
          assert init[i] == lines[i];
          assert PlainKey(lines[i], sep) != PlainKey(lines[n], sep);
        }
        AllKeptPlain(init, p0.entries, p0.values, sep, line);
        LoadPlainLast(lines, sep);
      }
    }
  }

  /** The corrected save of an entry kept as its line writes exactly the line. */
  lemma EmitKept(line: string, entry: string, values: map<string, string>, sep: string)
    requires KeptAs(line, entry, values, sep)
    ensures EmitVerbatim(entry, values, sep).Ok? && Concat(EmitVerbatim(entry, values, sep).value) == line
  {
    if Marked(line) {
      IsCommentSpec(line);
      ConcatAppend([], [line]);
      assert Concat([line]) == Concat([]) + line;
    } else {
      PlainShape(line, sep);
      EmitPlain(line, values, sep);
      ConcatAppendTwo([], PlainToken(line, sep) + sep + PlainValue(line, sep), "\n");
    }
  }

  /** Saving, with comments verbatim, the entries kept from the first n lines
      writes those lines back. */
  lemma {:induction false} SaveKept(lines: seq<string>, sep: string, n: nat,
                                    entries: seq<string>, values: map<string, string>)
    requires AllKept(lines, entries, values, sep) && n <= |lines|
    ensures var r := RenderVerbatim(entries[..n], values, sep);
      r.Ok? && Concat(r.value) == Concat(lines[..n])
  {
    if n == 0 {
      assert entries[..0] == [];
      assert lines[..0] == [];
    } else {
      var m := n - 1;
      SaveKept(lines, sep, m, entries, values);
      assert KeptAs(lines[m], entries[m], values, sep);
      EmitKept(lines[m], entries[m], values, sep);
      RenderVerbatimTake(entries, m, values, sep);
      ConcatAppend(RenderVerbatim(entries[..m], values, sep).value, EmitVerbatim(entries[m], values, sep).value);
      ConcatTake(lines, m);
    }
  }

  /** With comments written verbatim, loading and then saving a file of
      comment lines and plain `key=value` lines whose stripped keys are
      distinct reproduces the file exactly. */
  lemma RoundTripVerbatim(lines: seq<string>, sep: string)
    requires forall i {:trigger WellFormed(lines[i], sep)} :: 0 <= i < |lines| ==> WellFormed(lines[i], sep)
    requires DistinctKeys(lines, sep)
    ensures Parse(lines, sep).Ok?
    ensures var p := Parse(lines, sep).value;
      RenderVerbatim(p.entries, p.values, sep).Ok? &&
      Concat(RenderVerbatim(p.entries, p.values, sep).value) == Concat(lines)
  {
    LoadWellFormed(lines, sep);
    var p := Parse(lines, sep).value;
    SaveKept(lines, sep, |lines|, p.entries, p.values);
    assert p.entries[..|lines|] == p.entries;
    assert lines[..|lines|] == lines;
  }
}
