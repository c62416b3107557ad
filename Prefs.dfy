/** The ordered property store of an Eclipse `.prefs` file: the comment test,
    loading a store from the lines of a file, the invariant that ties the key
    list to the value map, and saving a store back as a sequence of writes. */
module Prefs {
  import opened Text

  /** The Python exceptions the core can raise: IndexError from indexing the
      empty result of `strip()`, KeyError from a missing dictionary key and
      TypeError from subscripting `None`. */
  datatype Error = IndexError | KeyError | TypeError

  datatype Result<T> = Ok(value: T) | Err(error: Error)

  /** A file that could be opened (its lines) or one that could not. */
  datatype Option<T> = None | Some(value: T)

  /** The first visible character of s is a comment marker, `#` or `;`. */
  predicate Marked(s: string) {
    !AllSpace(s) && (s[FirstVisible(s)] == '#' || s[FirstVisible(s)] == ';')
  }

  /** `is_comment`: whether the stripped string starts with `#` or `;`; an
      all-whitespace string strips to "" and indexing it raises IndexError. */
  function IsComment(s: string): Result<bool> {
    if AllSpace(s) then Err(IndexError) else Ok(s[FirstVisible(s)] == '#' || s[FirstVisible(s)] == ';')
  }

  /** The comment test raises IndexError exactly when `s.strip()` is empty,
      and otherwise holds exactly when `s.strip()` starts with `#` or `;`,
      that is, when the first visible character of s is one of them. */
  lemma IsCommentSpec(s: string)
    ensures var r := IsComment(s);
      && (r.Err? <==> Strip(s) == [])
      && (r.Err? <==> AllSpace(s))
      && (r.Err? ==> r.error == IndexError)
      && (r.Ok? ==> (r.value <==> Strip(s)[0] == '#' || Strip(s)[0] == ';'))
      && (r.Ok? ==> (r.value <==> Marked(s)))
  {
    StripFirst(s);
  }

  /** A prefix of s with a visible character has the same first visible
      character as s, so it carries a comment marker exactly when s does. */
  lemma PrefixMarked(s: string, n: nat)
    requires n <= |s| && !AllSpace(s[..n])
    ensures !AllSpace(s) && FirstVisible(s[..n]) == FirstVisible(s)
    ensures Marked(s[..n]) <==> Marked(s)
  {
    var k := s[..n];
    var i := FirstVisible(k);
    FirstVisibleSpec(k);
    forall j | 0 <= j < i ensures IsSpace(s[j]) { assert k[j] == s[j]; }
    assert k[i] == s[i];
    FirstVisibleUnique(s, i);
  }

  // ---------------------------------------------------------------------------
  // Loading

  /** What the loop of `load_prefs` makes of one line: a comment kept whole, a
      property (its raw key text and its value), or a line it drops. */
  datatype Line = Comment | Property(token: string, value: string) | Dropped

  /** One line classified as `load_prefs` does: the comment test first (which
      raises on a blank line), then the first occurrence of the separator. */
  function Classify(line: string, sep: string): Result<Line> {
    var pos := Find(line, sep);
    match IsComment(line)
    case Err(e) => Err(e)
    case Ok(comment) =>
      if comment then Ok(Comment)
      else if pos >= 0 then Ok(Property(line[..pos], TrimNewlines(line[pos + |sep|..])))
      else Ok(Dropped)
  }

  /** A blank line raises IndexError; a line whose first visible character is
      `#` or `;` is a comment; any other line is a property when the separator
      occurs in it, split at its first occurrence, and is dropped otherwise. */
  lemma ClassifySpec(line: string, sep: string)
    ensures var r := Classify(line, sep);
      && (r.Err? <==> AllSpace(line))
      && (r.Err? ==> r.error == IndexError)
      && ((r.Ok? && r.value.Comment?) <==> Marked(line))
      && ((r.Ok? && r.value.Dropped?) <==>
            !AllSpace(line) && !Marked(line) && forall i :: !OccursAt(line, sep, i))
      && (r.Ok? && r.value.Property? ==>
            var k := r.value.token;
            && !AllSpace(line) && !Marked(line)
            && OccursAt(line, sep, |k|)
            && (forall j :: 0 <= j < |k| ==> !OccursAt(line, sep, j))
            && k == line[..|k|]
            && r.value.value == TrimNewlines(line[|k| + |sep|..]))
  {
    IsCommentSpec(line);
    FindSpec(line, sep);
  }

  /** The raw key text of a property line never carries a comment marker. */
  lemma TokenUnmarked(line: string, sep: string)
    requires Classify(line, sep).Ok? && Classify(line, sep).value.Property?
    ensures !Marked(Classify(line, sep).value.token)
  {
    ClassifySpec(line, sep);
    var k := Classify(line, sep).value.token;
    if !AllSpace(k) {
      PrefixMarked(line, |k|);
    }
  }

  /** The pair `(propertyList, propertyDict)` that `load_prefs` builds. */
  datatype Parsed = Parsed(entries: seq<string>, values: map<string, string>)

  /** One iteration of the loop of `load_prefs`. */
  function AddLine(p: Parsed, line: string, sep: string): Result<Parsed> {
    match Classify(line, sep)
    case Err(e) => Err(e)
    case Ok(Comment) => Ok(Parsed(p.entries + [line], p.values))
    case Ok(Property(k, v)) => Ok(Parsed(p.entries + [k], p.values[Strip(k) := v]))
    case Ok(Dropped) => Ok(p)
  }

  /** What `load_prefs` computes from the lines of a file, line by line. */
  function Parse(lines: seq<string>, sep: string): Result<Parsed>
    decreases |lines|
  {
    if lines == [] then Ok(Parsed([], map[]))
    else
      match Parse(lines[..|lines| - 1], sep)
      case Err(e) => Err(e)
      case Ok(p) => AddLine(p, lines[|lines| - 1], sep)
  }

  /** Loading one more line continues from the store loaded so far. */
  lemma ParseSnoc(lines: seq<string>, line: string, sep: string)
    ensures Parse(lines, sep).Err? ==> Parse(lines + [line], sep) == Parse(lines, sep)
    ensures Parse(lines, sep).Ok? ==>
      Parse(lines + [line], sep) == AddLine(Parse(lines, sep).value, line, sep)
  {
    assert (lines + [line])[..|lines|] == lines;
  }

  /** Once a prefix of the lines raises, loading the whole file raises the same. */
  lemma {:induction false} ParseErrorPersists(lines: seq<string>, n: nat, sep: string)
    requires n <= |lines| && Parse(lines[..n], sep).Err?
    ensures Parse(lines, sep) == Parse(lines[..n], sep)
    decreases |lines| - n
  {
    if n < |lines| {
      assert lines[..n + 1][..n] == lines[..n];
      ParseErrorPersists(lines, n + 1, sep);
    } else {
      assert lines[..n] == lines;
    }
  }

  /** A comment line is appended verbatim to the entries and leaves the values alone. */
  lemma LoadCommentLine(lines: seq<string>, line: string, sep: string)
    requires Parse(lines, sep).Ok? && Marked(line)
    ensures Parse(lines + [line], sep) ==
      Ok(Parsed(Parse(lines, sep).value.entries + [line], Parse(lines, sep).value.values))
  {
    IsCommentSpec(line);
    assert (lines + [line])[..|lines|] == lines;
  }

  /** A non-comment line splits at the first occurrence of the separator: the raw
      text before it is appended to the entries, and the stripped key is bound to
      the text after it without its trailing line feeds. A repeated key gets a
      second entry and its new value. */
  lemma LoadPropertyLine(lines: seq<string>, line: string, sep: string, pos: nat)
    requires Parse(lines, sep).Ok? && !AllSpace(line) && !Marked(line)
    requires OccursAt(line, sep, pos) && forall j :: 0 <= j < pos ==> !OccursAt(line, sep, j)
    ensures var p := Parse(lines, sep).value;
      Parse(lines + [line], sep) ==
        Ok(Parsed(p.entries + [line[..pos]],
                  p.values[Strip(line[..pos]) := TrimNewlines(line[pos + |sep|..])]))
  {
    ParseSnoc(lines, line, sep);
    IsCommentSpec(line);
    FindSpec(line, sep);
    assert Find(line, sep) == pos;
    AddPropertyLine(Parse(lines, sep).value, line, sep, pos);
  }

  /** A non-comment line without the separator is dropped. */
  lemma LoadDroppedLine(lines: seq<string>, line: string, sep: string)
    requires Parse(lines, sep).Ok? && !AllSpace(line) && !Marked(line)
    requires forall i :: !OccursAt(line, sep, i)
    ensures Parse(lines + [line], sep) == Parse(lines, sep)
  {
    IsCommentSpec(line);
    FindSpec(line, sep);
    assert (lines + [line])[..|lines|] == lines;
  }

  /** Some string of ss is blank. */
  predicate HasBlank(ss: seq<string>) {
    exists i :: 0 <= i < |ss| && AllSpace(ss[i])
  }

  /** A non-empty sequence has a blank string when its prefix or its last string does. */
  lemma HasBlankLast(ss: seq<string>)
    requires ss != []
    ensures HasBlank(ss) <==> HasBlank(ss[..|ss| - 1]) || AllSpace(ss[|ss| - 1])
  {
    var init := ss[..|ss| - 1];
    if HasBlank(init) {
      var i :| 0 <= i < |init| && AllSpace(init[i]);
      assert ss[i] == init[i];
    }
    if HasBlank(ss) {
      var i :| 0 <= i < |ss| && AllSpace(ss[i]);
      if i < |init| {
        assert init[i] == ss[i];
      }
    }
  }

  /** Loading raises, with IndexError, exactly when some line is blank. */
  lemma {:induction false} LoadFails(lines: seq<string>, sep: string)
    ensures Parse(lines, sep).Err? <==> HasBlank(lines)
    ensures Parse(lines, sep).Err? ==> Parse(lines, sep).error == IndexError
    decreases |lines|
  {
    if lines != [] {
      LoadFails(lines[..|lines| - 1], sep);
      ParseLast(lines, sep);
      ClassifySpec(lines[|lines| - 1], sep);
      HasBlankLast(lines);
    }
  }

  // ---------------------------------------------------------------------------
  // The store invariant

  /** The stripped keys of the non-comment entries. */
  ghost function KeyTokens(entries: seq<string>): set<string> {
    set t | t in entries && !Marked(t) :: Strip(t)
  }

  /** The value map holds exactly the stripped keys of the non-comment entries. */
  ghost predicate KeyedBy(entries: seq<string>, values: map<string, string>) {
    values.Keys == KeyTokens(entries)
  }

  lemma KeyTokensAppend(entries: seq<string>, t: string)
    ensures KeyTokens(entries + [t]) == KeyTokens(entries) + (if Marked(t) then {} else {Strip(t)})
  {
    var lhs := KeyTokens(entries + [t]);
    var rhs := KeyTokens(entries) + (if Marked(t) then {} else {Strip(t)});
    forall k | k in lhs ensures k in rhs {
      var u :| u in entries + [t] && !Marked(u) && Strip(u) == k;
      if u != t {
        assert u in entries;
      }
    }
    forall k | k in rhs ensures k in lhs {
      if k in KeyTokens(entries) {
        var u :| u in entries && !Marked(u) && Strip(u) == k;
        assert u in entries + [t];
      } else {
        assert t in entries + [t];
      }
    }
  }

  /** After loading, the keys of the value map are exactly the stripped keys of
      the non-comment entries. */
  lemma {:induction false} LoadKeyed(lines: seq<string>, sep: string)
    requires Parse(lines, sep).Ok?
    ensures KeyedBy(Parse(lines, sep).value.entries, Parse(lines, sep).value.values)
    decreases |lines|
  {
    if lines != [] {
      var init := lines[..|lines| - 1];
      var line := lines[|lines| - 1];
      LoadKeyed(init, sep);
      ParseLast(lines, sep);
      var p := Parse(init, sep).value;
      match Classify(line, sep)
      case Ok(Comment) =>
        KeyTokensAppend(p.entries, line);
      case Ok(Property(k, v)) =>
        TokenUnmarked(line, sep);
        KeyTokensAppend(p.entries, k);
      case Ok(Dropped) =>
    }
  }

  /** The line `lines[i]` binds `key`. */
  predicate Binds(line: string, sep: string, key: string) {
    var c := Classify(line, sep);
    c.Ok? && c.value.Property? && Strip(c.value.token) == key
  }

  /** Loading a file continues from loading all of it but its last line. */
  lemma ParseLast(lines: seq<string>, sep: string)
    requires lines != []
    ensures var init := lines[..|lines| - 1];
      && (Parse(init, sep).Err? ==> Parse(lines, sep) == Parse(init, sep))
      && (Parse(init, sep).Ok? ==> Parse(lines, sep) == AddLine(Parse(init, sep).value, lines[|lines| - 1], sep))
  {
  }

  /** Loading one line changes the values only by binding a property line's key. */
  lemma AddLineValues(p: Parsed, line: string, sep: string)
    requires AddLine(p, line, sep).Ok?
    ensures var c := Classify(line, sep).value;
      AddLine(p, line, sep).value.values ==
        if c.Property? then p.values[Strip(c.token) := c.value] else p.values
  {
  }

  /** For a repeated key the value of its last line wins. */
  lemma {:induction false} LoadLastValueWins(lines: seq<string>, sep: string, i: nat)
    requires Parse(lines, sep).Ok? && i < |lines|
    requires Classify(lines[i], sep).Ok? && Classify(lines[i], sep).value.Property?
    requires var key := Strip(Classify(lines[i], sep).value.token);
      forall j :: i < j < |lines| ==> !Binds(lines[j], sep, key)
    ensures var key := Strip(Classify(lines[i], sep).value.token);
      var values := Parse(lines, sep).value.values;
      key in values && values[key] == Classify(lines[i], sep).value.value
    decreases |lines|
  {
    var n := |lines| - 1;
    var init := lines[..n];
    var key := Strip(Classify(lines[i], sep).value.token);
    ParseLast(lines, sep);
    AddLineValues(Parse(init, sep).value, lines[n], sep);
    if i < n {
      assert init[i] == lines[i];
      forall j | i < j < n ensures !Binds(init[j], sep, key) {
        assert init[j] == lines[j];
      }
      LoadLastValueWins(init, sep, i);
      assert !Binds(lines[n], sep, key);
    }
  }

  /** Loading the first i + 1 lines continues from loading the first i. */
  lemma ParseTake(lines: seq<string>, i: nat, sep: string)
    requires i < |lines|
    ensures Parse(lines[..i], sep).Err? ==> Parse(lines[..i + 1], sep) == Parse(lines[..i], sep)
    ensures Parse(lines[..i], sep).Ok? ==>
      Parse(lines[..i + 1], sep) == AddLine(Parse(lines[..i], sep).value, lines[i], sep)
  {
    assert lines[..i + 1][..i] == lines[..i];
    assert lines[..i + 1][i] == lines[i];
  }

  /** A comment line is kept whole. */
  lemma AddCommentLine(p: Parsed, line: string, sep: string)
    requires IsComment(line) == Ok(true)
    ensures AddLine(p, line, sep) == Ok(Parsed(p.entries + [line], p.values))
  {
  }

  /** Any other line holding the separator at pos, its first occurrence, adds
      its raw key and binds the stripped key to the rest without trailing line feeds. */
  lemma AddPropertyLine(p: Parsed, line: string, sep: string, pos: int)
    requires IsComment(line) == Ok(false) && pos == Find(line, sep) && pos >= 0
    ensures AddLine(p, line, sep) ==
      Ok(Parsed(p.entries + [line[..pos]], p.values[Strip(line[..pos]) := TrimNewlines(line[pos + |sep|..])]))
  {
    ClassifyProperty(line, sep, pos);
  }

  lemma ClassifyProperty(line: string, sep: string, pos: int)
    requires IsComment(line) == Ok(false) && pos == Find(line, sep) && pos >= 0
    ensures Classify(line, sep) == Ok(Property(line[..pos], TrimNewlines(line[pos + |sep|..])))
  {
  }

  /** Any other line without the separator changes nothing. */
  lemma AddDroppedLine(p: Parsed, line: string, sep: string)
    requires IsComment(line) == Ok(false) && Find(line, sep) < 0
    ensures AddLine(p, line, sep) == Ok(p)
  {
  }

  /** The line loop of `load_prefs`. */
  method LoadLines(lines: seq<string>, sep: string) returns (r: Result<Parsed>)
    ensures r == Parse(lines, sep)
  {
    var propertyList: seq<string> := [];
    var propertyDict: map<string, string> := map[];
    for i := 0 to |lines|
      invariant Parse(lines[..i], sep) == Ok(Parsed(propertyList, propertyDict))
    {
      var line := lines[i];
      var pos := Find(line, sep);
      var comment := IsComment(line);
      ParseTake(lines, i, sep);
      if comment.Err? {
        ParseErrorPersists(lines, i + 1, sep);
        return Err(comment.error);
      }
      if comment.value {
        AddCommentLine(Parsed(propertyList, propertyDict), line, sep);
        propertyList := propertyList + [line];
      } else if pos >= 0 {
        AddPropertyLine(Parsed(propertyList, propertyDict), line, sep, pos);
        var k := line[..pos];
        var v := line[pos + |sep|..];
        propertyDict := propertyDict[Strip(k) := TrimNewlines(v)];
        propertyList := propertyList + [k];
      } else {
        AddDroppedLine(Parsed(propertyList, propertyDict), line, sep);
      }
    }
    assert lines[..|lines|] == lines;
    r := Ok(Parsed(propertyList, propertyDict));
  }

  // ---------------------------------------------------------------------------
  // Saving

  /** What `save_prefs` writes for one entry: a comment verbatim, a key as
      `key SEP value`; each followed by a line feed. */
  function Emit(item: string, values: map<string, string>, sep: string): Result<seq<string>> {
    match IsComment(item)
    case Err(e) => Err(e)
    case Ok(comment) =>
      if comment then Ok([item, "\n"])
      else if Strip(item) in values then Ok([item + sep + values[Strip(item)], "\n"])
      else Err(KeyError)
  }

  /** The writes `save_prefs` makes for a list of entries. */
  function Render(entries: seq<string>, values: map<string, string>, sep: string): Result<seq<string>>
    decreases |entries|
  {
    if entries == [] then Ok([])
    else
      match Render(entries[..|entries| - 1], values, sep)
      case Err(e) => Err(e)
      case Ok(w) =>
        match Emit(entries[|entries| - 1], values, sep)
        case Err(e) => Err(e)
        case Ok(x) => Ok(w + x)
  }

  /** Once saving a prefix of the entries raises, saving all of them raises the same. */
  lemma {:induction false} RenderErrorPersists(entries: seq<string>, n: nat, values: map<string, string>, sep: string)
    requires n <= |entries| && Render(entries[..n], values, sep).Err?
    ensures Render(entries, values, sep) == Render(entries[..n], values, sep)
    decreases |entries| - n
  {
    if n < |entries| {
      assert entries[..n + 1][..n] == entries[..n];
      RenderErrorPersists(entries, n + 1, values, sep);
    } else {
      assert entries[..n] == entries;
    }
  }

  /** Saving one entry raises IndexError when it is blank; otherwise it writes
      the comment itself, or `key SEP values[key.strip()]` (raising KeyError
      when the stripped key has no value), and then a line feed. */
  lemma EmitShape(item: string, values: map<string, string>, sep: string)
    ensures AllSpace(item) ==> Emit(item, values, sep) == Err(IndexError)
    ensures !AllSpace(item) && Marked(item) ==> Emit(item, values, sep) == Ok([item, "\n"])
    ensures !AllSpace(item) && !Marked(item) && Strip(item) !in values ==> Emit(item, values, sep) == Err(KeyError)
    ensures !AllSpace(item) && !Marked(item) && Strip(item) in values ==>
      Emit(item, values, sep) == Ok([item + sep + values[Strip(item)], "\n"])
  {
    IsCommentSpec(item);
  }

  /** Saving a list of entries continues from saving all of them but the last. */
  lemma RenderLast(entries: seq<string>, values: map<string, string>, sep: string)
    requires entries != []
    ensures var init, last := entries[..|entries| - 1], entries[|entries| - 1];
      && (Render(entries, values, sep).Ok? <==> Render(init, values, sep).Ok? && Emit(last, values, sep).Ok?)
      && (Render(entries, values, sep).Ok? ==>
            Render(entries, values, sep).value == Render(init, values, sep).value + Emit(last, values, sep).value)
  {
  }

  /** Saving one entry, when it does not raise, makes two writes, the second a line feed. */
  lemma EmitWrites(item: string, values: map<string, string>, sep: string)
    requires Emit(item, values, sep).Ok?
    ensures |Emit(item, values, sep).value| == 2 && Emit(item, values, sep).value[1] == "\n"
  {
  }

  /** Saving writes two strings per entry, in entry order: the entry's own
      writes, the second of them a line feed. */
  lemma {:induction false} SaveShape(entries: seq<string>, values: map<string, string>, sep: string)
    requires Render(entries, values, sep).Ok?
    ensures var w := Render(entries, values, sep).value;
      && |w| == 2 * |entries|
      && forall i :: 0 <= i < |entries| ==>
           Emit(entries[i], values, sep) == Ok([w[2 * i], w[2 * i + 1]]) && w[2 * i + 1] == "\n"
    decreases |entries|
  {
    if entries != [] {
      var n := |entries| - 1;
      var init := entries[..n];
      RenderLast(entries, values, sep);
      SaveShape(init, values, sep);
      EmitWrites(entries[n], values, sep);
      var w0 := Render(init, values, sep).value;
      var x := Emit(entries[n], values, sep).value;
      var w := Render(entries, values, sep).value;
      forall i | 0 <= i < |entries|
        ensures Emit(entries[i], values, sep) == Ok([w[2 * i], w[2 * i + 1]]) && w[2 * i + 1] == "\n"
      {
        if i < n {
          assert entries[i] == init[i];
          assert w[2 * i] == w0[2 * i] && w[2 * i + 1] == w0[2 * i + 1];
        } else {
          assert x == [w[2 * i], w[2 * i + 1]];
        }
      }
    }
  }

  /** Saving entries whose stripped keys all have values (as in a store whose
      value map matches its entries) never raises KeyError; it raises
      IndexError exactly when some entry is blank. */
  lemma {:induction false} SaveFails(entries: seq<string>, values: map<string, string>, sep: string)
    requires KeyTokens(entries) <= values.Keys
    ensures Render(entries, values, sep).Err? <==> HasBlank(entries)
    ensures Render(entries, values, sep).Err? ==> Render(entries, values, sep).error == IndexError
    decreases |entries|
  {
    if entries != [] {
      var init := entries[..|entries| - 1];
      var last := entries[|entries| - 1];
      assert entries == init + [last];
      KeyTokensAppend(init, last);
      SaveFails(init, values, sep);
      HasBlankLast(entries);
    }
  }

  // ---------------------------------------------------------------------------
  // Load then save

  /** The text a sequence of writes leaves in the file. */
  function Concat(ws: seq<string>): string
    decreases |ws|
  {
    if ws == [] then [] else Concat(ws[..|ws| - 1]) + ws[|ws| - 1]
  }

  lemma ConcatAppendTwo(ws: seq<string>, a: string, b: string)
    ensures Concat(ws + [a, b]) == Concat(ws) + a + b
  {
    assert (ws + [a, b])[..|ws| + 1] == ws + [a];
    assert (ws + [a])[..|ws|] == ws;
  }

  /** A line `key SEP value` that ends in exactly one line feed, where SEP
      first occurs right after the key, the key has a visible character, and
      the line's first visible character is not a comment marker. The key and
      the value may carry whitespace. */
  predicate PlainProperty(line: string, sep: string) {
    var pos := Find(line, sep);
    && 0 <= pos
    && !AllSpace(line) && FirstVisible(line) < pos
    && line[FirstVisible(line)] != '#' && line[FirstVisible(line)] != ';'
    && pos + |sep| < |line|
    && line[|line| - 1] == '\n'
    && (pos + |sep| == |line| - 1 || line[|line| - 2] != '\n')
  }

  /** The raw key text of a plain property line: what precedes the separator. */
  function PlainToken(line: string, sep: string): string
    requires PlainProperty(line, sep)
  {
    line[..Find(line, sep)]
  }

  /** The key a plain property line binds: its raw key text, stripped. */
  function PlainKey(line: string, sep: string): string
    requires PlainProperty(line, sep)
  {
    Strip(PlainToken(line, sep))
  }

  /** The value of a plain property line: what follows the separator, up to
      the final line feed. */
  function PlainValue(line: string, sep: string): string
    requires PlainProperty(line, sep)
  {
    var pos := Find(line, sep);
    line[pos + |sep|..|line| - 1]
  }

  /** entry is the raw key text of the plain property line, and values binds
      its stripped form to the line's value. */
  predicate SavedAs(line: string, entry: string, values: map<string, string>, sep: string) {
    && PlainProperty(line, sep)
    && entry == PlainToken(line, sep)
    && PlainKey(line, sep) in values
    && values[PlainKey(line, sep)] == PlainValue(line, sep)
  }

  /** Binding another key keeps a line saved as it was. */
  lemma SavedAsExtend(line: string, entry: string, values: map<string, string>, sep: string,
                      key: string, value: string)
    requires SavedAs(line, entry, values, sep) && PlainKey(line, sep) != key
    ensures SavedAs(line, entry, values[key := value], sep)
  {
  }

  /** Neither a plain property line nor its raw key text is a comment. */
  lemma PlainShape(line: string, sep: string)
    requires PlainProperty(line, sep)
    ensures IsComment(line) == Ok(false) && IsComment(PlainToken(line, sep)) == Ok(false)
  {
    var k := PlainToken(line, sep);
    var f := FirstVisible(line);
    IsCommentSpec(line);
    assert k[f] == line[f];
    assert !AllSpace(k) by { assert !IsSpace(k[f]); }
    PrefixMarked(line, |k|);
    IsCommentSpec(k);
  }

  /** Loading a plain property line appends its key and binds it to its value. */
  lemma AddPlainLine(p: Parsed, line: string, sep: string)
    requires PlainProperty(line, sep)
    ensures AddLine(p, line, sep) ==
      Ok(Parsed(p.entries + [PlainToken(line, sep)],
                p.values[PlainKey(line, sep) := PlainValue(line, sep)]))
  {
    var pos := Find(line, sep);
    PlainShape(line, sep);
    AddPropertyLine(p, line, sep, pos);
    TrimOneNewline(line[pos + |sep|..]);
    assert line[pos + |sep|..][..|line| - pos - |sep| - 1] == PlainValue(line, sep);
  }

  /** `rstrip("\n")` of a string ending in exactly one line feed drops just that line feed. */
  lemma TrimOneNewline(v: string)
    requires v != [] && v[|v| - 1] == '\n' && (|v| == 1 || v[|v| - 2] != '\n')
    ensures TrimNewlines(v) == v[..|v| - 1]
  {
    var u := v[..|v| - 1];
    assert TrimNewlines(v) == TrimNewlines(u);
    assert u == [] || u[|u| - 1] != '\n';
  }

  /** Loading a file whose last line is a plain property line. */
  lemma LoadPlainLast(lines: seq<string>, sep: string)
    requires lines != [] && Parse(lines[..|lines| - 1], sep).Ok? && PlainProperty(lines[|lines| - 1], sep)
    ensures var p0, line := Parse(lines[..|lines| - 1], sep).value, lines[|lines| - 1];
      Parse(lines, sep) ==
        Ok(Parsed(p0.entries + [PlainToken(line, sep)], p0.values[PlainKey(line, sep) := PlainValue(line, sep)]))
  {
    ParseLast(lines, sep);
    AddPlainLine(Parse(lines[..|lines| - 1], sep).value, lines[|lines| - 1], sep);
  }

  /** One raw key text per plain property line, each saved as its line. */
  predicate AllSaved(lines: seq<string>, entries: seq<string>, values: map<string, string>, sep: string) {
    && |entries| == |lines|
    && forall i {:trigger SavedAs(lines[i], entries[i], values, sep)} :: 0 <= i < |lines| ==>
         SavedAs(lines[i], entries[i], values, sep)
  }

  /** Loading one more plain property line, whose key no earlier line binds,
      keeps every line saved as it was and saves the new one. */
  lemma AllSavedSnoc(lines: seq<string>, entries: seq<string>, values: map<string, string>, sep: string,
                     line: string)
    requires AllSaved(lines, entries, values, sep) && PlainProperty(line, sep)
    requires forall i {:trigger PlainKey(lines[i], sep)} :: 0 <= i < |lines| ==>
      PlainProperty(lines[i], sep) && PlainKey(lines[i], sep) != PlainKey(line, sep)
    ensures AllSaved(lines + [line], entries + [PlainToken(line, sep)],
                     values[PlainKey(line, sep) := PlainValue(line, sep)], sep)
  {
    var key, value := PlainKey(line, sep), PlainValue(line, sep);
    var lines', entries' := lines + [line], entries + [PlainToken(line, sep)];
    forall i | 0 <= i < |lines'| ensures SavedAs(lines'[i], entries'[i], values[key := value], sep) {
      if i < |lines| {
        assert lines'[i] == lines[i] && entries'[i] == entries[i];
        assert SavedAs(lines[i], entries[i], values, sep);
        assert PlainKey(lines[i], sep) != key;
        SavedAsExtend(lines[i], entries[i], values, sep, key, value);
      }
    }
  }

  /** Plain property lines with pairwise distinct stripped keys load to one
      entry per line, each saved as its line. */
  lemma {:induction false} LoadPlain(lines: seq<string>, sep: string)
    requires forall i {:trigger PlainProperty(lines[i], sep)} :: 0 <= i < |lines| ==> PlainProperty(lines[i], sep)
    requires forall i, j {:trigger PlainKey(lines[i], sep), PlainKey(lines[j], sep)} ::
      0 <= i < j < |lines| ==> PlainKey(lines[i], sep) != PlainKey(lines[j], sep)
    ensures Parse(lines, sep).Ok?
    ensures AllSaved(lines, Parse(lines, sep).value.entries, Parse(lines, sep).value.values, sep)
    decreases |lines|
  {
    if lines != [] {
      var n := |lines| - 1;
      var init := lines[..n];
      forall i | 0 <= i < n ensures PlainProperty(init[i], sep) {
        assert init[i] == lines[i] && PlainProperty(lines[i], sep);
      }
      forall i, j | 0 <= i < j < n ensures PlainKey(init[i], sep) != PlainKey(init[j], sep) {
        assert init[i] == lines[i] && init[j] == lines[j];
        assert PlainKey(lines[i], sep) != PlainKey(lines[j], sep);
      }
      LoadPlain(init, sep);
      var p0 := Parse(init, sep).value;
      assert PlainProperty(lines[n], sep);
      forall i | 0 <= i < n
        ensures PlainProperty(init[i], sep) && PlainKey(init[i], sep) != PlainKey(lines[n], sep)
      {
        assert init[i] == lines[i];
        assert PlainKey(lines[i], sep) != PlainKey(lines[n], sep);
      }
      AllSavedSnoc(init, p0.entries, p0.values, sep, lines[n]);
      LoadPlainLast(lines, sep);
      assert init + [lines[n]] == lines;
    }
  }

  /** Saving the raw key text of a plain property line, its stripped form
      bound to the line's value, writes the line back, its final line feed as
      a write of its own. */
  lemma EmitPlain(line: string, values: map<string, string>, sep: string)
    requires PlainProperty(line, sep)
    requires PlainKey(line, sep) in values && values[PlainKey(line, sep)] == PlainValue(line, sep)
    ensures Emit(PlainToken(line, sep), values, sep) ==
      Ok([PlainToken(line, sep) + sep + PlainValue(line, sep), "\n"])
    ensures PlainToken(line, sep) + sep + PlainValue(line, sep) + "\n" == line
  {
    FindSpec(line, sep);
    PlainShape(line, sep);
    SplitAround(line, sep, Find(line, sep));
  }

  /** A line ending in a line feed, with sep at pos, is what precedes sep,
      then sep, then the rest up to the line feed, then the line feed. */
  lemma SplitAround(line: string, sep: string, pos: nat)
    requires OccursAt(line, sep, pos) && pos + |sep| < |line| && line[|line| - 1] == '\n'
    ensures line[..pos] + sep + line[pos + |sep|..|line| - 1] + "\n" == line
  {
    assert line == line[..pos] + line[pos..pos + |sep|] + line[pos + |sep|..|line| - 1] + [line[|line| - 1]];
  }

  /** Saving the first m + 1 entries writes what saving the first m writes,
      then the writes of entry m. */
  lemma RenderTake(entries: seq<string>, m: nat, values: map<string, string>, sep: string)
    requires m < |entries|
    requires Render(entries[..m], values, sep).Ok? && Emit(entries[m], values, sep).Ok?
    ensures Render(entries[..m + 1], values, sep) ==
      Ok(Render(entries[..m], values, sep).value + Emit(entries[m], values, sep).value)
  {
    assert entries[..m + 1][..m] == entries[..m];
    assert entries[..m + 1][m] == entries[m];
  }

  /** The text of the first m + 1 lines is that of the first m, then line m. */
  lemma ConcatTake(lines: seq<string>, m: nat)
    requires m < |lines|
    ensures Concat(lines[..m + 1]) == Concat(lines[..m]) + lines[m]
  {
    assert lines[..m + 1][..m] == lines[..m];
    assert lines[..m + 1][m] == lines[m];
  }

  /** Saving the raw key of one more plain line adds that line to the file. */
  lemma SaveOnePlain(lines: seq<string>, sep: string, m: nat,
                     entries: seq<string>, values: map<string, string>)
    requires m < |entries| && m < |lines|
    requires SavedAs(lines[m], entries[m], values, sep)
    requires Render(entries[..m], values, sep).Ok?
    requires Concat(Render(entries[..m], values, sep).value) == Concat(lines[..m])
    ensures var r := Render(entries[..m + 1], values, sep);
      r.Ok? && Concat(r.value) == Concat(lines[..m + 1])
  {
    var line := lines[m];
    var text := PlainToken(line, sep) + sep + PlainValue(line, sep);
    EmitPlain(line, values, sep);
    RenderTake(entries, m, values, sep);
    var w := Render(entries[..m], values, sep).value;
    ConcatAppendTwo(w, text, "\n");
    ConcatTake(lines, m);
    assert Concat(w) + text + "\n" == Concat(w) + (text + "\n");
  }

  /** Saving one raw key per plain line, each bound to its line's value, writes
      the lines back, line for line. */
  lemma {:induction false} SavePlain(lines: seq<string>, sep: string, n: nat,
                                     entries: seq<string>, values: map<string, string>)
    requires AllSaved(lines, entries, values, sep) && n <= |lines|
    ensures var r := Render(entries[..n], values, sep);
      r.Ok? && Concat(r.value) == Concat(lines[..n])
  {
    if n == 0 {
      assert entries[..0] == [];
      assert lines[..0] == [];
    } else {
      SavePlain(lines, sep, n - 1, entries, values);
      assert SavedAs(lines[n - 1], entries[n - 1], values, sep);
      SaveOnePlain(lines, sep, n - 1, entries, values);
    }
  }

  /** For a file made only of plain `key=value` lines whose stripped keys
      are distinct, loading and then saving reproduces the file exactly. */
  lemma RoundTrip(lines: seq<string>, sep: string)
    requires forall i {:trigger PlainProperty(lines[i], sep)} :: 0 <= i < |lines| ==> PlainProperty(lines[i], sep)
    requires forall i, j {:trigger PlainKey(lines[i], sep), PlainKey(lines[j], sep)} ::
      0 <= i < j < |lines| ==> PlainKey(lines[i], sep) != PlainKey(lines[j], sep)
    ensures Parse(lines, sep).Ok?
    ensures var p := Parse(lines, sep).value;
      Render(p.entries, p.values, sep).Ok? &&
      Concat(Render(p.entries, p.values, sep).value) == Concat(lines)
  {
    LoadPlain(lines, sep);
    var p := Parse(lines, sep).value;
    SavePlain(lines, sep, |lines|, p.entries, p.values);
    assert p.entries[..|lines|] == p.entries;
    assert lines[..|lines|] == lines;
  }

  // ---------------------------------------------------------------------------
  // The store

  /** The triple `(propertyList, propertyDict, SEP)` that `load_prefs` returns
      and `overwrite_prefs` updates in place. */
  class Store {
    var entries: seq<string>
    var values: map<string, string>
    const sep: string

    ghost predicate Valid()
      reads this
    {
      KeyedBy(entries, values)
    }

    constructor (entries: seq<string>, values: map<string, string>, sep: string)
      ensures this.entries == entries && this.values == values && this.sep == sep
    {
      this.entries := entries;
      this.values := values;
      this.sep := sep;
    }

    /** `save_prefs`: the strings written to the file, in order. */
    method Save() returns (r: Result<seq<string>>)
      ensures r == Render(entries, values, sep)
    {
      var written: seq<string> := [];
      for i := 0 to |entries|
        invariant Render(entries[..i], values, sep) == Ok(written)
      {
        var item := entries[i];
        assert entries[..i + 1][..i] == entries[..i];
        assert entries[..i + 1][i] == item;
        ghost var before := written;
        var comment := IsComment(item);
        if comment.Err? {
          RenderErrorPersists(entries, i + 1, values, sep);
          return Err(comment.error);
        }
        if comment.value {
          written := written + [item];
        } else {
          var key := Strip(item);
          if key !in values {
            RenderErrorPersists(entries, i + 1, values, sep);
            return Err(KeyError);
          }
          written := written + [item + sep + values[key]];
        }
        written := written + ["\n"];
        assert written == before + Emit(item, values, sep).value;
      }
      assert entries[..|entries|] == entries;
      r := Ok(written);
    }
  }

  /** `load_prefs`: a file that cannot be opened gives no store (null); a blank
      line raises IndexError; otherwise a fresh store whose value map matches
      its entries. */
  method LoadPrefs(file: Option<seq<string>>, sep: string) returns (r: Result<Store?>)
    ensures file.None? ==> r == Ok(null)
    ensures file.Some? && Parse(file.value, sep).Err? ==> r == Err(Parse(file.value, sep).error)
    ensures file.Some? && Parse(file.value, sep).Ok? ==>
      && r.Ok? && r.value != null && fresh(r.value)
      && r.value.entries == Parse(file.value, sep).value.entries
      && r.value.values == Parse(file.value, sep).value.values
      && r.value.sep == sep
      && r.value.Valid()
  {
    if file.None? {
      return Ok(null);
    }
    var parsed := LoadLines(file.value, sep);
    if parsed.Err? {
      return Err(parsed.error);
    }
    LoadKeyed(file.value, sep);
    var store := new Store(parsed.value.entries, parsed.value.values, sep);
    return Ok(store);
  }
}
