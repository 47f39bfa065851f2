// The persistent project settings object and its modification counter.
module ProjectSettings {

  class NasmProjectSettings {
    var includePaths: seq<string>
    var commandLineMacros: string
    /** The count of the settings' modification tracker. */
    var modificationCount: int

    constructor ()
      ensures includePaths == [] && commandLineMacros == "" && modificationCount == 0
    {
      includePaths := [];
      commandLineMacros := "";
      modificationCount := 0;
    }

    /** The `commandLineMacros` setter: stores the value and bumps the count. */
    method SetCommandLineMacros(value: string)
      modifies this
      ensures commandLineMacros == value
      ensures includePaths == old(includePaths)
      ensures modificationCount == old(modificationCount) + 1
    {
      commandLineMacros := value;
      modificationCount := modificationCount + 1;
    }

    /** Replacing the include-path list goes through no tracker: the count stays. */
    method SetIncludePaths(paths: seq<string>)
      modifies this
      ensures includePaths == paths
      ensures commandLineMacros == old(commandLineMacros)
      ensures modificationCount == old(modificationCount)
    {
      includePaths := paths;
    }

    /** `includePaths.add(path)` on the mutable list: the count stays. */
    method AddIncludePath(path: string)
      modifies this
      ensures includePaths == old(includePaths) + [path]
      ensures commandLineMacros == old(commandLineMacros)
      ensures modificationCount == old(modificationCount)
    {
      includePaths := includePaths + [path];
    }

    /** `notifyChanged`: the count strictly increases, by one. */
    method NotifyChanged()
      modifies this
      ensures modificationCount == old(modificationCount) + 1
      ensures includePaths == old(includePaths) && commandLineMacros == old(commandLineMacros)
    {
      modificationCount := modificationCount + 1;
    }

    /**
     * `loadState`: the bean copy assigns both properties, the macros one
     * through its counting setter, and then the count is bumped once more.
     */
    method LoadState(state: NasmProjectSettings)
      modifies this
      ensures includePaths == state.includePaths
      ensures commandLineMacros == state.commandLineMacros
      ensures modificationCount == old(modificationCount) + 2
    {
      var paths := state.includePaths;
      var macros := state.commandLineMacros;
      SetIncludePaths(paths);
      SetCommandLineMacros(macros);
      modificationCount := modificationCount + 1;
    }
  }
}
