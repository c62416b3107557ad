/** `overwrite_prefs`, which merges one store into another in place, and the
    conflict check the script runs before it. */
module Merge {
  import opened Text
  import opened Prefs

  /** The elements of a sequence, as a set. */
  function Elements(s: seq<string>): set<string> {
    set k | k in s
  }

  /** No string occurs twice in s. */
  predicate NoDuplicates(s: seq<string>) {
    forall i, j :: 0 <= i < j < |s| ==> s[i] != s[j]
  }

  /** The keys of src that the merge appends to the entries of a store whose
      value map is v0: those v0 lacks, other than comment-like keys. */
  function NewKeys(v0: map<string, string>, src: map<string, string>): set<string> {
    set k | k in src.Keys && k !in v0 && !Marked(k)
  }

  /** The store (e1, v1) is what merging src into the store (e0, v0) gives:
      the old entries are a prefix of the new ones, the appended entries are
      exactly the new keys, each once, in some order, and every value of src
      replaces the old one. */
  ghost predicate Merged(e0: seq<string>, v0: map<string, string>, src: map<string, string>,
                         e1: seq<string>, v1: map<string, string>) {
    && |e0| <= |e1| && e1[..|e0|] == e0
    && NoDuplicates(e1[|e0|..])
    && Elements(e1[|e0|..]) == NewKeys(v0, src)
    && v1 == v0 + src
  }

  /** src agrees with v0 on every key of src. */
  predicate Subsumed(src: map<string, string>, v0: map<string, string>) {
    forall k :: k in src ==> k in v0 && v0[k] == src[k]
  }

  /** A sequence without duplicates has as many elements as positions. */
  lemma {:induction false} NoDuplicatesCard(s: seq<string>)
    requires NoDuplicates(s)
    ensures |Elements(s)| == |s|
  {
    if s != [] {
      var init := s[..|s| - 1];
      var last := s[|s| - 1];
      assert NoDuplicates(init) by {
        forall i, j | 0 <= i < j < |init| ensures init[i] != init[j] {
          assert init[i] == s[i] && init[j] == s[j];
        }
      }
      NoDuplicatesCard(init);
      assert s == init + [last];
      assert Elements(s) == Elements(init) + {last};
      forall i | 0 <= i < |init| ensures init[i] != last {
        assert init[i] == s[i];
      }
    }
  }

  /** A store merged with values it already holds keeps its entries and its
      values; in particular, so does a store merged with an equal copy. */
  lemma MergeSubsumed(e0: seq<string>, v0: map<string, string>, src: map<string, string>,
                      e1: seq<string>, v1: map<string, string>)
    requires Merged(e0, v0, src, e1, v1) && Subsumed(src, v0)
    ensures e1 == e0 && v1 == v0
  {
    var added := e1[|e0|..];
    assert NewKeys(v0, src) == {};
    NoDuplicatesCard(added);
    assert e1 == e1[..|e0|] + added;
    assert v1 == v0;
  }

  /** The merge appends one entry per new key. */
  lemma MergeCount(e0: seq<string>, v0: map<string, string>, src: map<string, string>,
                   e1: seq<string>, v1: map<string, string>)
    requires Merged(e0, v0, src, e1, v1)
    ensures |e1| == |e0| + |NewKeys(v0, src)|
  {
    NoDuplicatesCard(e1[|e0|..]);
  }

  /** After the merge every key of src holds its value from src, and every
      other key keeps its old value. */
  lemma MergeValues(e0: seq<string>, v0: map<string, string>, src: map<string, string>,
                    e1: seq<string>, v1: map<string, string>)
    requires Merged(e0, v0, src, e1, v1)
    ensures v1.Keys == v0.Keys + src.Keys
    ensures forall k :: k in src ==> v1[k] == src[k]
    ensures forall k :: k in v0 && k !in src ==> v1[k] == v0[k]
  {
  }

  /** The keys of a loaded store are their own stripped form and never look
      like comments. */
  lemma KeyTokenShape(entries: seq<string>, k: string)
    requires k in KeyTokens(entries)
    ensures Strip(k) == k && !Marked(k)
  {
    var t :| t in entries && !Marked(t) && Strip(t) == k;
    StripIdempotent(t);
    if !AllSpace(k) {
      StripFirst(t);
      StripFirst(k);
      assert !AllSpace(t);
      FirstVisibleUnique(k, 0);
    }
  }

  /** Appending stripped, comment-free keys adds exactly those keys to the
      key set. */
  lemma {:induction false} KeyTokensConcat(e0: seq<string>, added: seq<string>)
    requires forall k :: k in added ==> Strip(k) == k && !Marked(k)
    ensures KeyTokens(e0 + added) == KeyTokens(e0) + Elements(added)
    decreases |added|
  {
    if added != [] {
      var init := added[..|added| - 1];
      var last := added[|added| - 1];
      assert added == init + [last];
      assert forall k :: k in init ==> k in added;
      KeyTokensConcat(e0, init);
      assert e0 + added == (e0 + init) + [last];
      KeyTokensAppend(e0 + init, last);
      assert Elements(added) == Elements(init) + {last};
    }
  }

  /** Merging one loaded store into another keeps the value map matched to
      the stripped key tokens of the entries. */
  lemma MergeKeyed(e0: seq<string>, v0: map<string, string>, eo: seq<string>, src: map<string, string>,
                   e1: seq<string>, v1: map<string, string>)
    requires KeyedBy(e0, v0) && KeyedBy(eo, src)
    requires Merged(e0, v0, src, e1, v1)
    ensures KeyedBy(e1, v1)
  {
    var added := e1[|e0|..];
    forall k | k in added ensures Strip(k) == k && !Marked(k) {
      assert k in Elements(added);
      KeyTokenShape(eo, k);
    }
    assert e1 == e0 + added;
    KeyTokensConcat(e0, added);
    forall k | k in src.Keys ensures !Marked(k) {
      KeyTokenShape(eo, k);
    }
    assert NewKeys(v0, src) == src.Keys - v0.Keys;
  }

  /** Some key of m is blank, which makes the comment test raise. */
  predicate HasBlankKey(m: map<string, string>) {
    exists k :: k in m && AllSpace(k)
  }

  /** `overwrite_prefs`: an absent target gives other back untouched; an absent
      other cannot be subscripted; otherwise every key of other is tested with
      the comment test (a blank key raises IndexError), appended to the target's
      entries when it is new and not comment-like, and bound in the target to
      its value from other. The keys are visited in an unspecified order. */
  method OverwritePrefs(target: Store?, other: Store?) returns (r: Result<Store?>)
    modifies target
    ensures target == null ==> r == Ok(other)
    ensures target != null && other == null ==> r == Err(TypeError) && unchanged(target)
    ensures target != null && other != null ==> (r.Err? <==> HasBlankKey(old(other.values)))
    ensures target != null && other != null && r.Ok? ==>
      && r.value == target
      && Merged(old(target.entries), old(target.values), old(other.values), target.entries, target.values)
      && (old(target.Valid()) && old(other.Valid()) ==> target.Valid())
    ensures target != null && other != null && r.Err? ==>
      && r.error == IndexError
      && exists done :: Subset(done, old(other.values)) && !HasBlankKey(done) &&
           Merged(old(target.entries), old(target.values), done, target.entries, target.values)
  {
    if target == null {
      return Ok(other);
    }
    if other == null {
      return Err(TypeError);
    }
    var entries, values, error := MergeLoop(target.entries, target.values, other.values);
    if error.Some? {
      target.entries, target.values := entries, values;
      return Err(error.value);
    }
    if target.Valid() && other.Valid() {
      MergeKeyed(target.entries, target.values, other.entries, other.values, entries, values);
    }
    target.entries, target.values := entries, values;
    return Ok(target);
  }

  /** The loop of `overwrite_prefs` over the target's entries and values: each
      key of src in turn is tested with the comment test, appended when it is
      new and not comment-like, and bound to its value from src. A blank key
      stops the loop with IndexError, after the keys visited before it. */
  method MergeLoop(e0: seq<string>, v0: map<string, string>, src: map<string, string>)
    returns (entries: seq<string>, values: map<string, string>, error: Option<Error>)
    ensures error.Some? <==> HasBlankKey(src)
    ensures error.None? ==> Merged(e0, v0, src, entries, values)
    ensures error.Some? ==>
      && error.value == IndexError
      && exists done :: Subset(done, src) && !HasBlankKey(done) && Merged(e0, v0, done, entries, values)
  {
    entries, values := e0, v0;
    var todo := src.Keys;
    ghost var done: map<string, string> := map[];
    ghost var added: seq<string> := [];
    while todo != {}
      invariant Visited(e0, v0, src, todo, done, added, entries, values)
      decreases |todo|
    {
      var key :| key in todo;
      var comment := IsComment(key);
      IsCommentSpec(key);
      if comment.Err? {
        VisitStopped(e0, v0, src, todo, done, added, entries, values, key);
        return entries, values, Some(comment.error);
      }
      var append := !comment.value && key !in values;
      VisitStep(e0, v0, src, todo, done, added, entries, values, key, append);
      if append {
        added := added + [key];
        entries := entries + [key];
      }
      values := values[key := src[key]];
      done := done[key := src[key]];
      todo := todo - {key};
    }
    VisitDone(e0, v0, src, done, added, entries, values);
    return entries, values, None;
  }

  /** What the merge loop keeps: done holds the keys of src visited so far
      (those not in todo), none of them blank, and (entries, values) is the
      merge of done into (e0, v0), the keys appended being added. */
  ghost predicate Visited(e0: seq<string>, v0: map<string, string>, src: map<string, string>,
                          todo: set<string>, done: map<string, string>, added: seq<string>,
                          entries: seq<string>, values: map<string, string>) {
    && todo <= src.Keys && done.Keys == src.Keys - todo
    && Subset(done, src)
    && !HasBlankKey(done)
    && entries == e0 + added
    && NoDuplicates(added) && Elements(added) == NewKeys(v0, done)
    && values == v0 + done
  }

  /** Visiting one more key that is not blank keeps what the loop keeps. */
  lemma VisitStep(e0: seq<string>, v0: map<string, string>, src: map<string, string>,
                  todo: set<string>, done: map<string, string>, added: seq<string>,
                  entries: seq<string>, values: map<string, string>, key: string, append: bool)
    requires Visited(e0, v0, src, todo, done, added, entries, values)
    requires key in todo && !AllSpace(key) && append == (!Marked(key) && key !in values)
    ensures Visited(e0, v0, src, todo - {key}, done[key := src[key]],
                    if append then added + [key] else added,
                    if append then entries + [key] else entries,
                    values[key := src[key]])
  {
    MergeStep(v0, done, added, key, src[key]);
    var d1 := done[key := src[key]];
    assert !HasBlankKey(d1) by {
      forall k | k in d1 ensures !AllSpace(k) {
        if k != key {
          assert k in done;
        }
      }
    }
  }

  /** A blank key stops the loop with a merge of the keys visited before it,
      none of them blank. */
  lemma VisitStopped(e0: seq<string>, v0: map<string, string>, src: map<string, string>,
                     todo: set<string>, done: map<string, string>, added: seq<string>,
                     entries: seq<string>, values: map<string, string>, key: string)
    requires Visited(e0, v0, src, todo, done, added, entries, values)
    requires key in todo && AllSpace(key)
    ensures HasBlankKey(src)
    ensures exists d :: Subset(d, src) && !HasBlankKey(d) && Merged(e0, v0, d, entries, values)
  {
    MergedSoFar(e0, v0, done, added, entries, values);
  }

  /** Once every key is visited, the loop has merged all of src, and no key of src is blank. */
  lemma VisitDone(e0: seq<string>, v0: map<string, string>, src: map<string, string>,
                  done: map<string, string>, added: seq<string>,
                  entries: seq<string>, values: map<string, string>)
    requires Visited(e0, v0, src, {}, done, added, entries, values)
    ensures Merged(e0, v0, src, entries, values) && !HasBlankKey(src)
  {
    assert done == src;
    MergedSoFar(e0, v0, src, added, entries, values);
  }

  /** done binds only keys of src, to their values in src. */
  predicate Subset(done: map<string, string>, src: map<string, string>) {
    forall k :: k in done ==> k in src && done[k] == src[k]
  }

  /** One visit of the merge loop keeps the appended keys exactly the new
      keys seen so far, each once. */
  lemma MergeStep(v0: map<string, string>, done: map<string, string>, added: seq<string>,
                  key: string, value: string)
    requires NoDuplicates(added) && Elements(added) == NewKeys(v0, done) && key !in done
    ensures (v0 + done)[key := value] == v0 + done[key := value]
    ensures !Marked(key) && key !in v0 + done ==>
      NoDuplicates(added + [key]) && Elements(added + [key]) == NewKeys(v0, done[key := value])
    ensures !(!Marked(key) && key !in v0 + done) ==> Elements(added) == NewKeys(v0, done[key := value])
  {
    var d1 := done[key := value];
    if !Marked(key) && key !in v0 + done {
      assert key !in Elements(added);
      assert Elements(added + [key]) == Elements(added) + {key};
      assert NewKeys(v0, d1) == NewKeys(v0, done) + {key};
    } else {
      assert NewKeys(v0, d1) == NewKeys(v0, done);
    }
  }

  /** The state the merge loop keeps is a merge of what it has visited. */
  lemma MergedSoFar(e0: seq<string>, v0: map<string, string>, done: map<string, string>,
                    added: seq<string>, e1: seq<string>, v1: map<string, string>)
    requires e1 == e0 + added && v1 == v0 + done
    requires NoDuplicates(added) && Elements(added) == NewKeys(v0, done)
    ensures Merged(e0, v0, done, e1, v1)
  {
    assert e1[..|e0|] == e0 && e1[|e0|..] == added;
  }

  /** The keys both maps hold with different values: what the script reports
      as conflicts before merging. */
  function Conflicting(a: map<string, string>, b: map<string, string>): set<string> {
    set k | k in a.Keys && k in b.Keys && a[k] != b[k]
  }

  /** The conflicts are exactly the existing keys whose value the merge changes. */
  lemma ConflictsAreChanges(e0: seq<string>, v0: map<string, string>, src: map<string, string>,
                            e1: seq<string>, v1: map<string, string>)
    requires Merged(e0, v0, src, e1, v1)
    ensures forall k :: k in Conflicting(v0, src) <==> k in v0 && v1[k] != v0[k]
  {
  }

  /** A store has no conflicts with an equal copy of itself. */
  lemma ConflictsOfCopy(v: map<string, string>)
    ensures Conflicting(v, v) == {}
  {
  }

  /** The conflict check of the script: nothing when the workspace has no
      preferences; a TypeError when the new preferences could not be loaded;
      otherwise the common keys, less each one whose two values agree. */
  method FindConflicts(preferences: Store?, newPreferences: Store?) returns (r: Result<set<string>>)
    ensures preferences == null ==> r == Ok({})
    ensures preferences != null && newPreferences == null ==> r == Err(TypeError)
    ensures preferences != null && newPreferences != null ==>
      r == Ok(Conflicting(preferences.values, newPreferences.values))
  {
    if preferences == null {
      return Ok({});
    }
    if newPreferences == null {
      return Err(TypeError);
    }
    var x, y := preferences.values, newPreferences.values;
    var conflicts := x.Keys * y.Keys;
    var pending := conflicts;
    while pending != {}
      invariant pending <= conflicts
      invariant forall k :: k in conflicts ==> k in x && k in y
      invariant forall k :: k in conflicts <==>
        k in x && k in y && (k in pending || x[k] != y[k])
      decreases |pending|
    {
      var key :| key in pending;
      if x[key] == y[key] {
        conflicts := conflicts - {key};
      }
      pending := pending - {key};
    }
    assert conflicts == Conflicting(x, y);
    return Ok(conflicts);
  }

  /** Whether the script goes on to merge: always when there are no
      conflicts, and otherwise only when the answer lower-cases to "y". */
  function Proceeds(conflicts: set<string>, answer: string): bool {
    conflicts == {} || Lower(answer) == "y"
  }

  /** The merge runs exactly when there are no conflicts or the answer is
      "y" or "Y". */
  lemma ProceedsSpec(conflicts: set<string>, answer: string)
    ensures Proceeds(conflicts, answer) <==> conflicts == {} || answer == "y" || answer == "Y"
  {
    LowerIsY(answer);
  }
}
