/** The body of the script once its arguments are checked: load the
    workspace's preferences and the shipped ones, report conflicts, ask
    before overwriting any, merge, and save. The two files and the answer to
    the prompt are parameters; the saved file is what the run writes. */
module Driver {
  import opened Prefs
  import opened Merge

  /** How a run ends: the strings written to the workspace's preferences
      file, an abort at the prompt, or an uncaught exception. */
  datatype Outcome = Saved(written: seq<string>) | Aborted | Failed(error: Error)

  /** The outcome of a save that writes r. */
  function SaveOutcome(r: Result<seq<string>>): Outcome {
    match r
    case Ok(w) => Saved(w)
    case Err(e) => Failed(e)
  }

  /** The script as written: the store `overwrite_prefs` returns is dropped
      and the workspace's store is saved, so a workspace without a
      preferences file ends in a TypeError whenever the shipped file loads. */
  method RunAsWritten(workspace: Option<seq<string>>, shipped: Option<seq<string>>, answer: string, sep: string)
    returns (o: Outcome)
    ensures workspace.None? && !(shipped.Some? && Parse(shipped.value, sep).Err?) ==> o == Failed(TypeError)
  {
    var preferences := LoadPrefs(workspace, sep);
    if preferences.Err? {
      return Failed(preferences.error);
    }
    var newPreferences := LoadPrefs(shipped, sep);
    if newPreferences.Err? {
      return Failed(newPreferences.error);
    }
    var conflicts := FindConflicts(preferences.value, newPreferences.value);
    if conflicts.Err? {
      return Failed(conflicts.error);
    }
    if !Proceeds(conflicts.value, answer) {
      return Aborted;
    }
    var merged := OverwritePrefs(preferences.value, newPreferences.value);
    if merged.Err? {
      return Failed(merged.error);
    }
    if preferences.value == null {
      return Failed(TypeError);
    }
    var written := preferences.value.Save();
    return SaveOutcome(written);
  }

  /** The script as intended: the store `overwrite_prefs` returns is saved.
      A missing workspace file then installs the shipped preferences as they
      load; otherwise a conflict the user does not accept aborts the run, a
      blank key in the shipped preferences raises IndexError, and the saved
      file is the rendering of some merge of the shipped values into the
      workspace's store. */
  method Run(workspace: Option<seq<string>>, shipped: Option<seq<string>>, answer: string, sep: string)
    returns (o: Outcome)
    ensures workspace.Some? && Parse(workspace.value, sep).Err? ==>
      o == Failed(Parse(workspace.value, sep).error)
    ensures !(workspace.Some? && Parse(workspace.value, sep).Err?) &&
            shipped.Some? && Parse(shipped.value, sep).Err? ==>
      o == Failed(Parse(shipped.value, sep).error)
    ensures workspace.None? && shipped.None? ==> o == Failed(TypeError)
    ensures workspace.Some? && Parse(workspace.value, sep).Ok? && shipped.None? ==> o == Failed(TypeError)
    ensures workspace.None? && shipped.Some? && Parse(shipped.value, sep).Ok? ==>
      var p1 := Parse(shipped.value, sep).value;
      o == SaveOutcome(Render(p1.entries, p1.values, sep))
    ensures workspace.Some? && Parse(workspace.value, sep).Ok? &&
            shipped.Some? && Parse(shipped.value, sep).Ok? ==>
      var p0, p1 := Parse(workspace.value, sep).value, Parse(shipped.value, sep).value;
      && (!Proceeds(Conflicting(p0.values, p1.values), answer) ==> o == Aborted)
      && (Proceeds(Conflicting(p0.values, p1.values), answer) && HasBlankKey(p1.values) ==>
            o == Failed(IndexError))
      && (Proceeds(Conflicting(p0.values, p1.values), answer) && !HasBlankKey(p1.values) ==>
            exists e1, v1 :: Merged(p0.entries, p0.values, p1.values, e1, v1) &&
              KeyedBy(e1, v1) && o == SaveOutcome(Render(e1, v1, sep)))
  {
    var preferences := LoadPrefs(workspace, sep);
    if preferences.Err? {
      return Failed(preferences.error);
    }
    var newPreferences := LoadPrefs(shipped, sep);
    if newPreferences.Err? {
      return Failed(newPreferences.error);
    }
    var conflicts := FindConflicts(preferences.value, newPreferences.value);
    if conflicts.Err? {
      return Failed(conflicts.error);
    }
    if !Proceeds(conflicts.value, answer) {
      return Aborted;
    }
    var merged := OverwritePrefs(preferences.value, newPreferences.value);
    if merged.Err? {
      return Failed(merged.error);
    }
    if merged.value == null {
      return Failed(TypeError);
    }
    var written := merged.value.Save();
    return SaveOutcome(written);
  }
}
