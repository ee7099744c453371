/**
 * The catalog objects themselves: a FileData per game or folder, owning
 * its children in an ordered list and in an index by key, and the
 * collection alias (CollectionFileData) that stands for a game of another
 * system inside a collection.
 */
module Catalog {
  import opened Wrappers
  import opened Paths
  import opened MetaData
  import opened FileTree
  import opened Display
  import Launch

  /** The first position of `x` in `s`. */
  function IndexOf(s: seq<FileData>, x: FileData): (i: nat)
    requires x in s
    ensures i < |s| && s[i] == x && x !in s[..i]
  {
    if s[0] == x then 0
    else
      var i := IndexOf(s[1..], x);
      assert s[1..][..i] == s[1..i + 1];
      assert s[..i + 1] == [s[0]] + s[1..][..i];
      i + 1
  }

  /**
   * A child list and a key index agree: no two children share a key, the
   * index maps each child's key to that child, and it holds nothing else.
   */
  ghost predicate KeysAgree(cs: seq<FileData>, index: map<string, FileData>)
  {
    && (forall i, j :: 0 <= i < j < |cs| ==> cs[i].Key() != cs[j].Key())
    && (forall k :: k in index ==> index[k] in cs && index[k].Key() == k)
    && (forall c :: c in cs ==> c.Key() in index)
  }

  /** Under unique keys a node occurs once: only at its own position. */
  lemma KeysAgreeDistinct(cs: seq<FileData>, index: map<string, FileData>, i: nat)
    requires KeysAgree(cs, index) && i < |cs|
    ensures forall j :: 0 <= j < |cs| && j != i ==> cs[j] != cs[i]
  {
  }

  /** Appending a node under a fresh key keeps list and index in agreement. */
  lemma KeysAgreeAppend(cs: seq<FileData>, index: map<string, FileData>, f: FileData)
    requires KeysAgree(cs, index) && f.Key() !in index
    ensures KeysAgree(cs + [f], index[f.Key() := f])
  {
    assert forall c :: c in cs + [f] <==> c in cs || c == f;
  }

  /** Cutting a node out of the list and its key out of the index keeps them in agreement. */
  lemma KeysAgreeRemove(cs: seq<FileData>, index: map<string, FileData>, i: nat)
    requires KeysAgree(cs, index) && i < |cs|
    ensures KeysAgree(cs[..i] + cs[i + 1..], index - {cs[i].Key()})
  {
    var rest := cs[..i] + cs[i + 1..];
    assert forall j :: 0 <= j < |rest| ==> rest[j] == cs[if j < i then j else j + 1];
    forall c | c in cs && c != cs[i]
      ensures c in rest
    {
      var j :| 0 <= j < |cs| && cs[j] == c;
      assert rest[if j < i then j else j - 1] == c;
    }
  }

  /**
   * The label an alias shows when collections show the system: the
   * source's name without bracketed annotations, then the source's system
   * in upper case, in square brackets.
   */
  function CollectionLabel(sourceName: string, sourceSystem: string): (tag: string)
    ensures |tag| == |RemoveParenthesis(sourceName)| + |sourceSystem| + 3 && tag[|tag| - 1] == ']'
    ensures tag[..|RemoveParenthesis(sourceName)| + 2] == RemoveParenthesis(sourceName) + " ["
    ensures '(' !in tag[..|tag| - |sourceSystem| - 3]
    ensures forall i :: 0 <= i < |sourceSystem| ==> tag[|tag| - |sourceSystem| - 1 + i] == ToUpperChar(sourceSystem[i])
  {
    var base := RemoveParenthesis(sourceName);
    assert (base + " [" + ToUpper(sourceSystem) + "]")[..|base|] == base;
    base + " [" + ToUpper(sourceSystem) + "]"
  }

  class FileData {
    const kind: FileType
    const path: string
    /** The name of the system the file belongs to (for an alias: its source's system). */
    const systemName: string
    /** The name of the system that owns this object (mSystem): for an alias, its collection. */
    const system: string
    /** The environment the file launches with: its system's command template and cores. */
    const env: Launch.SystemEnvData
    /** null for a file of a system; for a collection alias, the file it stands for. */
    const source: FileData?

    var parent: FileData?
    var children: seq<FileData>
    var childrenByKey: map<string, FileData>
    var metadata: MetaDataList
    /** The alias's name cache: whether it must be rebuilt, and its last value. */
    var dirty: bool
    var collectionName: string

    /** getKey: the file name, or the full path for an alias. */
    function Key(): (k: string)
    {
      JoinKey(path, source != null)
    }

    /** getSourceFileData: the file itself, or the file an alias stands for. */
    function SourceFileData(): (f: FileData)
      ensures source == null ==> f == this
      ensures source != null ==> f == source
    {
      if source == null then this else source
    }

    /** Every alias stands for a file of a system, never for another alias. */
    predicate SourceIsRoot()
    {
      source == null || source.source == null
    }

    /**
     * The system names as the constructors set them: a file of a system
     * carries its owner's name; an alias carries its source's path and
     * system name and launches with its source's environment.
     */
    predicate SystemsAgree()
    {
      && (source == null ==> systemName == system)
      && (source != null ==> path == source.path && systemName == source.system && env == source.env)
    }

    /**
     * The folder's two views of its children agree: every child points
     * back to this folder, and the list and the index hold the same nodes
     * under unique keys.
     */
    ghost predicate Valid()
      reads this, children
    {
      && (forall c :: c in children ==> c.parent == this)
      && KeysAgree(children, childrenByKey)
    }

    /**
     * A file of a system. Its metadata starts from the type's defaults; a
     * missing name becomes the display name (the stem of the path); the
     * changed flag is then cleared.
     */
    constructor (kind: FileType, path: string, env: Launch.SystemEnvData, system: string, defaults: MetaDataList)
      ensures this.kind == kind && this.path == path && this.env == env && this.system == system && source == null
      ensures systemName == system && SystemsAgree()
      ensures parent == null && children == [] && childrenByKey == map[] && Valid()
      ensures Get(metadata, "name") == if Get(defaults, "name") == "" then Stem(path) else Get(defaults, "name")
      ensures forall k :: k != "name" ==> Get(metadata, k) == Get(defaults, k)
      ensures !metadata.changed && SourceIsRoot()
    {
      this.kind := kind;
      this.path := path;
      this.env := env;
      this.system := system;
      systemName := system;
      source := null;
      parent := null;
      children := [];
      childrenByKey := map[];
      var md := if Get(defaults, "name") == "" then Set(defaults, "name", Stem(path)) else defaults;
      metadata := ResetChangedFlag(md);
      dirty := false;
      collectionName := "";
    }

    /**
     * A collection alias of `file` in the collection `system`. It takes the
     * type, path and environment of the file's source, stands for that
     * source (the root even when `file` is itself an alias), is owned by
     * the collection but carries the source's system name, copies the
     * source's metadata and starts with a dirty name cache and no parent.
     */
    constructor Alias(file: FileData, system: string)
      requires file.SourceIsRoot()
      ensures source == file.SourceFileData() && source.source == null && SourceIsRoot()
      ensures kind == source.kind && path == source.path && env == source.env
      ensures this.system == system && systemName == source.system && SystemsAgree()
      ensures Key() == path
      ensures metadata == source.metadata && dirty
      ensures parent == null && children == [] && childrenByKey == map[] && Valid()
    {
      var root := file.SourceFileData();
      kind := root.kind;
      path := root.path;
      env := root.env;
      this.system := system;
      systemName := root.system;
      source := root;
      parent := null;
      children := [];
      childrenByKey := map[];
      metadata := root.metadata;
      dirty := true;
      collectionName := "";
    }

    /**
     * addChild: a parentless file whose key is new is appended last and
     * adopted; a file whose key is already taken is ignored and stays
     * parentless.
     */
    method AddChild(file: FileData)
      requires Valid() && kind == Folder && file.parent == null
      modifies this`children, this`childrenByKey, file`parent
      ensures Valid()
      ensures old(file.Key() in childrenByKey) ==>
                children == old(children) && childrenByKey == old(childrenByKey) && file.parent == null
      ensures old(file.Key() !in childrenByKey) ==>
                children == old(children) + [file] && childrenByKey == old(childrenByKey)[file.Key() := file]
                && file.parent == this
      ensures metadata == old(metadata)
    {
      var key := file.Key();
      if key !in childrenByKey {
        KeysAgreeAppend(children, childrenByKey, file);
        ghost var before := children;
        childrenByKey := childrenByKey[key := file];
        children := children + [file];
        file.parent := this;
        assert forall c :: c in children ==> c in before || c == file;
      }
    }

    /**
     * removeChild: the file's key leaves the index first; then the file is
     * looked up among the children. Found, it is cut out of the list (the
     * others keep their order) and loses its parent. Not found, the
     * trailing assertion of the loop fails.
     */
    method RemoveChild(file: FileData) returns (o: Outcome)
      requires Valid() && kind == Folder && file.parent == this
      modifies this`children, this`childrenByKey, file`parent
      ensures childrenByKey == old(childrenByKey) - {file.Key()}
      ensures o == Pass <==> file in old(children)
      ensures o == Pass ==>
                var i := IndexOf(old(children), file);
                children == old(children)[..i] + old(children)[i + 1..] && file.parent == null && Valid()
      ensures o == AssertionFailed ==> children == old(children) && file.parent == this
      ensures metadata == old(metadata)
    {
      childrenByKey := childrenByKey - {file.Key()};
      var i := 0;
      while i < |children|
        invariant 0 <= i <= |children|
        invariant children == old(children) && childrenByKey == old(childrenByKey) - {file.Key()}
        invariant file !in children[..i]
      {
        if children[i] == file {
          assert i == IndexOf(children, file);
          Detach(file, i, old(childrenByKey));
          return Pass;
        }
        assert children[..i + 1] == children[..i] + [children[i]];
        i := i + 1;
      }
      assert children[..i] == children;
      return AssertionFailed;
    }

    /** The found branch of removeChild: the file leaves the list and loses its parent. */
    method Detach(file: FileData, i: nat, ghost index: map<string, FileData>)
      requires i < |children| && children[i] == file
      requires (forall c :: c in children ==> c.parent == this) && KeysAgree(children, index)
      requires childrenByKey == index - {file.Key()}
      modifies this`children, file`parent
      ensures children == old(children)[..i] + old(children)[i + 1..] && file.parent == null && Valid()
    {
      KeysAgreeRemove(children, index, i);
      KeysAgreeDistinct(children, index, i);
      file.parent := null;
      children := children[..i] + children[i + 1..];
      assert forall c :: c in children ==> c in old(children) && c != file;
    }

    /** refreshMetadata: an alias copies its source's metadata and marks its name cache dirty. */
    method RefreshMetadata()
      modifies this`metadata, this`dirty
      ensures source != null ==> metadata == source.metadata && dirty
      ensures source == null ==> metadata == old(metadata) && dirty == old(dirty)
    {
      if source != null {
        metadata := source.metadata;
        dirty := true;
      }
    }

    /**
     * getName. A file of a system shows its file name in ALL mode and its
     * "name" otherwise. An alias rebuilds its label when the cache is
     * dirty, then shows the (possibly cached) label when collections show
     * the system, and its source's current name otherwise.
     */
    method GetName(showFolders: string, showSystemInfo: bool) returns (name: string)
      modifies this`dirty, this`collectionName
      ensures source == null ==> name == (if showFolders == "ALL" then FileName(path) else Get(metadata, "name"))
      ensures source == null ==> dirty == old(dirty) && collectionName == old(collectionName)
      ensures source != null ==> !dirty
      ensures source != null ==>
                collectionName ==
                (if old(dirty) then CollectionLabel(Get(source.metadata, "name"), source.system) else old(collectionName))
      ensures source != null ==> name == (if showSystemInfo then collectionName else Get(source.metadata, "name"))
    {
      if source == null {
        if showFolders == "ALL" {
          return FileName(path);
        }
        return Get(metadata, "name");
      }
      if dirty {
        collectionName := CollectionLabel(Get(source.metadata, "name"), source.system);
        dirty := false;
      }
      if showSystemInfo {
        return collectionName;
      }
      return Get(source.metadata, "name");
    }

    /**
     * launchGame's command for this object: the template and the cores of
     * its environment, the game's path, and %CONFIG% filled from the name
     * of the system that owns the object.
     */
    method LaunchCommand() returns (command: string)
      ensures command == Launch.Command(env.launchCommand, env.cores, path, system)
    {
      command := Launch.BuildCommand(env, path, system);
    }

    /**
     * The command with %CONFIG% filled from the game's own system name
     * (mSystemName), which an alias shares with its source.
     */
    method IntendedLaunchCommand() returns (command: string)
      ensures command == Launch.Command(env.launchCommand, env.cores, path, systemName)
    {
      command := Launch.BuildCommand(env, path, systemName);
    }

    /**
     * The bookkeeping at the end of launchGame: the source file's play
     * count goes up by one and its last-played time becomes `now`.
     */
    method RecordLaunched(now: string)
      modifies SourceFileData()`metadata
      ensures SourceFileData().metadata == RecordLaunch(old(SourceFileData().metadata), now)
    {
      var game := SourceFileData();
      game.metadata := RecordLaunch(game.metadata, now);
    }
  }

  /**
   * Launching through an alias counts on the source; after the alias
   * refreshes, it shows the new count too.
   */
  method LaunchThroughAlias(alias: FileData, now: string)
    requires alias.source != null && alias.SourceIsRoot()
    modifies alias.source`metadata, alias`metadata, alias`dirty
    ensures GetInt(alias.source.metadata, "playcount") == GetInt(old(alias.source.metadata), "playcount") + 1
    ensures alias.metadata == alias.source.metadata && alias.dirty
  {
    alias.RecordLaunched(now);
    RecordLaunchCounts(old(alias.source.metadata), now);
    alias.RefreshMetadata();
  }

  /**
   * Launching a game from a collection. As written, the alias's command
   * takes the template and the cores of the source's system but fills
   * %CONFIG% from the collection's name; the intended command is the one
   * the source itself launches with.
   */
  method LaunchAlias(alias: FileData) returns (asWritten: string, intended: string, fromSource: string)
    requires alias.source != null && alias.SystemsAgree() && alias.source.SystemsAgree()
    ensures var src := alias.source;
      && asWritten == Launch.Command(src.env.launchCommand, src.env.cores, src.path, alias.system)
      && fromSource == Launch.Command(src.env.launchCommand, src.env.cores, src.path, src.system)
    ensures intended == fromSource
    ensures var src := alias.source;
      (&& src.env.launchCommand == "%CONFIG%" && alias.system != src.system
       && '%' !in alias.system && '%' !in src.system) ==> asWritten != intended
  {
    asWritten := alias.LaunchCommand();
    intended := alias.IntendedLaunchCommand();
    fromSource := alias.source.LaunchCommand();
    var src := alias.source;
    if '%' !in alias.system && '%' !in src.system && alias.system != src.system {
      Launch.ConfigFollowsSystem(src.env.cores, src.path, alias.system, src.system);
    }
  }

  /** Removing a child and adding it back moves it to the end of the list. */
  method RemoveThenAdd(folder: FileData, file: FileData) returns (o: Outcome)
    requires folder.Valid() && folder.kind == Folder && file in folder.children
    modifies folder`children, folder`childrenByKey, file`parent
    ensures o == Pass
    ensures var i := IndexOf(old(folder.children), file);
      folder.children == old(folder.children)[..i] + old(folder.children)[i + 1..] + [file]
    ensures file.parent == folder && folder.Valid()
  {
    o := folder.RemoveChild(file);
    assert file.Key() !in folder.childrenByKey;
    folder.AddChild(file);
  }
}
