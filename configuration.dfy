/**
  Credential discovery of src/configuration.rs: `enumerate_client_secret`
  walks the tree under the current directory collecting the paths of files
  named `client_secret*.json`, `configure` keeps the first one that parses
  and validates, `parse_client_secret` rejects an empty client id or client
  secret. The file system is a tree value and reading plus JSON parsing is
  an oracle from path to record.
*/
module Configuration {
  import opened Wrappers
  import opened Strings

  /** A directory entry as the walk sees it. */
  datatype Node =
    | File(name: string)
    | Dir(name: string, entries: seq<Node>)
    | Unreadable(name: string)  // a directory whose listing, or one of whose entries, cannot be read
    | Other(name: string)       // neither a file nor a directory (a dangling link, say)

  datatype Installed = Installed(clientId: string, clientSecret: string, redirectUris: seq<string>, authUri: string, tokenUri: string)

  datatype ClientSecret = ClientSecret(installed: Installed)

  datatype ConfigError =
    | EnumerationFailed   // `read_dir` or one of its entries failed
    | NotFound            // no candidate, or no candidate that parses and validates
    | ParseFailed         // the file cannot be opened or is not a client secret in JSON
    | InvalidClientId
    | InvalidClientSecret

  /** `file_name.starts_with("client_secret") && file_name.ends_with(".json")` */
  predicate IsClientSecretName(name: string) {
    StartsWith(name, "client_secret") && EndsWith(name, ".json")
  }

  /** The path of an entry: `entry.path()` joins the directory and the entry name with `/`. */
  function ChildPath(dir: string, child: Node): string {
    dir + "/" + child.name
  }

  /** What `enumerate_client_secret(path)` returns for the entry `node` found at `path`. */
  function Collect(path: string, node: Node): Result<seq<string>, ConfigError>
    decreases node, 1
  {
    match node
    case File(name) => if IsClientSecretName(name) then Ok([path]) else Ok([])
    case Dir(_, _) => CollectFrom(path, node, 0)
    case Unreadable(_) => Err(EnumerationFailed)
    case Other(_) => Ok([])
  }

  /** The results for the entries of `dir` from the `i`-th on, concatenated in entry order; the first failure wins. */
  function CollectFrom(path: string, dir: Node, i: nat): Result<seq<string>, ConfigError>
    requires dir.Dir? && i <= |dir.entries|
    decreases dir, 0, |dir.entries| - i
  {
    if i == |dir.entries| then Ok([])
    else
      match Collect(ChildPath(path, dir.entries[i]), dir.entries[i])
      case Err(e) => Err(e)
      case Ok(found) =>
        match CollectFrom(path, dir, i + 1)
        case Err(e) => Err(e)
        case Ok(rest) => Ok(found + rest)
  }

  /** `found` put in front of the outcome for the remaining entries. */
  function Preceded(found: seq<string>, rest: Result<seq<string>, ConfigError>): Result<seq<string>, ConfigError> {
    match rest
    case Err(e) => Err(e)
    case Ok(more) => Ok(found + more)
  }

  lemma PrecededNothing(rest: Result<seq<string>, ConfigError>)
    ensures Preceded([], rest) == rest
  {
    if rest.Ok? {
      assert [] + rest.value == rest.value;
    }
  }

  lemma PrecededTwice(a: seq<string>, b: seq<string>, rest: Result<seq<string>, ConfigError>)
    ensures Preceded(a, Preceded(b, rest)) == Preceded(a + b, rest)
  {
    if rest.Ok? {
      assert a + (b + rest.value) == (a + b) + rest.value;
    }
  }

  /** `enumerate_client_secret`: recursion into directories, appending each entry's results to `result`. */
  method EnumerateClientSecret(path: string, node: Node) returns (r: Result<seq<string>, ConfigError>)
    ensures r == Collect(path, node)
    decreases node, 1
  {
    var result: seq<string> := [];
    match node {
      case File(name) =>
        if IsClientSecretName(name) {
          result := result + [path];
          assert result == [path];
          return Ok(result);
        }
      case Dir(_, entries) =>
        assert Collect(path, node) == CollectFrom(path, node, 0);
        PrecededNothing(CollectFrom(path, node, 0));
        for i := 0 to |entries|
          invariant Collect(path, node) == Preceded(result, CollectFrom(path, node, i))
        {
          var tmp := EnumerateClientSecret(ChildPath(path, entries[i]), entries[i]);
          if tmp.Err? {
            return Err(tmp.error);
          }
          PrecededTwice(result, tmp.value, CollectFrom(path, node, i + 1));
          result := result + tmp.value;
        }
        assert CollectFrom(path, node, |entries|) == Ok([]);
        assert result + [] == result;
        return Ok(result);
      case Unreadable(_) =>
        return Err(EnumerationFailed);
      case Other(_) =>
    }
    return Ok(result);
  }

  /** No directory in the tree fails to list. */
  predicate Readable(node: Node)
    decreases node, 1
  {
    match node
    case Dir(_, _) => ReadableFrom(node, 0)
    case Unreadable(_) => false
    case _ => true
  }

  predicate ReadableFrom(dir: Node, i: nat)
    requires dir.Dir? && i <= |dir.entries|
    decreases dir, 0, |dir.entries| - i
  {
    i == |dir.entries| || (Readable(dir.entries[i]) && ReadableFrom(dir, i + 1))
  }

  /** Reference listing: the paths of the files named `client_secret*.json`, in pre-order, ignoring failures. */
  function MatchingFiles(path: string, node: Node): seq<string>
    decreases node, 1
  {
    match node
    case File(name) => if IsClientSecretName(name) then [path] else []
    case Dir(_, _) => MatchingFrom(path, node, 0)
    case _ => []
  }

  function MatchingFrom(path: string, dir: Node, i: nat): seq<string>
    requires dir.Dir? && i <= |dir.entries|
    decreases dir, 0, |dir.entries| - i
  {
    if i == |dir.entries| then []
    else MatchingFiles(ChildPath(path, dir.entries[i]), dir.entries[i]) + MatchingFrom(path, dir, i + 1)
  }

  /** The walk fails exactly when some directory cannot be listed, and otherwise lists the matching files in pre-order. */
  lemma {:induction false} CollectMeaning(path: string, node: Node)
    ensures Collect(path, node) == if Readable(node) then Ok(MatchingFiles(path, node)) else Err(EnumerationFailed)
    decreases node, 1
  {
    match node
    case Dir(_, _) => CollectFromMeaning(path, node, 0);
    case _ =>
  }

  lemma {:induction false} CollectFromMeaning(path: string, dir: Node, i: nat)
    requires dir.Dir? && i <= |dir.entries|
    ensures CollectFrom(path, dir, i) == if ReadableFrom(dir, i) then Ok(MatchingFrom(path, dir, i)) else Err(EnumerationFailed)
    decreases dir, 0, |dir.entries| - i
  {
    if i < |dir.entries| {
      CollectMeaning(ChildPath(path, dir.entries[i]), dir.entries[i]);
      CollectFromMeaning(path, dir, i + 1);
    }
  }

  /** The path of an entry found inside the tree at `path`. */
  predicate Under(p: string, path: string) {
    p == path || StartsWith(p, path + "/")
  }

  lemma UnderChild(p: string, path: string, name: string)
    requires Under(p, path + "/" + name)
    ensures Under(p, path)
  {
    var q := path + "/";
    assert StartsWith(path + "/" + name, q) by {
      assert (path + "/" + name)[..|q|] == q;
    }
    if p != path + "/" + name {
      var c := path + "/" + name + "/";
      assert p[..|q|] == p[..|c|][..|q|] == c[..|q|] == q;
    }
  }

  lemma JsonSuffix(path: string, name: string)
    requires EndsWith(path, name) && IsClientSecretName(name)
    ensures EndsWith(path, ".json")
  {
    assert path[|path| - 5..] == path[|path| - |name|..][|name| - 5..];
  }

  /** Every listed path lies under the starting location and ends with a `client_secret*.json` name. */
  lemma {:induction false} MatchingShape(path: string, node: Node)
    requires EndsWith(path, node.name)
    ensures forall p :: p in MatchingFiles(path, node) ==>
      && Under(p, path) && EndsWith(p, ".json")
      && exists name | IsClientSecretName(name) :: EndsWith(p, name)
    decreases node, 1
  {
    match node
    case File(name) =>
      if IsClientSecretName(name) {
        JsonSuffix(path, name);
      }
    case Dir(_, _) => MatchingFromShape(path, node, 0);
    case _ =>
  }

  lemma {:induction false} MatchingFromShape(path: string, dir: Node, i: nat)
    requires dir.Dir? && i <= |dir.entries|
    ensures forall p :: p in MatchingFrom(path, dir, i) ==>
      && Under(p, path) && EndsWith(p, ".json")
      && exists name | IsClientSecretName(name) :: EndsWith(p, name)
    decreases dir, 0, |dir.entries| - i
  {
    if i < |dir.entries| {
      var child := dir.entries[i];
      var cp := ChildPath(path, child);
      assert EndsWith(cp, child.name) by {
        assert cp[|cp| - |child.name|..] == child.name;
      }
      MatchingShape(cp, child);
      MatchingFromShape(path, dir, i + 1);
      forall p | p in MatchingFiles(cp, child)
        ensures Under(p, path)
      {
        UnderChild(p, path, child.name);
      }
    }
  }

  /** Every file of the tree as (path, file name), in pre-order: what `is_file` and `file_name` see. */
  function FilePaths(path: string, node: Node): seq<(string, string)>
    decreases node, 1
  {
    match node
    case File(name) => [(path, name)]
    case Dir(_, _) => FilePathsFrom(path, node, 0)
    case _ => []
  }

  function FilePathsFrom(path: string, dir: Node, i: nat): seq<(string, string)>
    requires dir.Dir? && i <= |dir.entries|
    decreases dir, 0, |dir.entries| - i
  {
    if i == |dir.entries| then []
    else FilePaths(ChildPath(path, dir.entries[i]), dir.entries[i]) + FilePathsFrom(path, dir, i + 1)
  }

  /** The paths of the files whose name passes the `client_secret*.json` test, in order. */
  function Selected(files: seq<(string, string)>): seq<string> {
    if files == [] then []
    else (if IsClientSecretName(files[0].1) then [files[0].0] else []) + Selected(files[1..])
  }

  lemma {:induction false} SelectedAppend(a: seq<(string, string)>, b: seq<(string, string)>)
    ensures Selected(a + b) == Selected(a) + Selected(b)
  {
    if a != [] {
      var head := if IsClientSecretName(a[0].1) then [a[0].0] else [];
      assert (a + b)[0] == a[0] && (a + b)[1..] == a[1..] + b;
      SelectedAppend(a[1..], b);
      assert Selected(a + b) == head + (Selected(a[1..]) + Selected(b));
      assert head + (Selected(a[1..]) + Selected(b)) == (head + Selected(a[1..])) + Selected(b);
    } else {
      assert a + b == b;
    }
  }

  /** A path is selected exactly when some file with a `client_secret*.json` name has it. */
  lemma {:induction false} SelectedMembers(files: seq<(string, string)>)
    ensures forall p :: p in Selected(files) <==> exists f :: f in files && IsClientSecretName(f.1) && f.0 == p
  {
    if files != [] {
      SelectedMembers(files[1..]);
      assert files == [files[0]] + files[1..];
    }
  }

  /** The reference listing is the filter of the tree's files by name. */
  lemma {:induction false} MatchingSelects(path: string, node: Node)
    ensures MatchingFiles(path, node) == Selected(FilePaths(path, node))
    decreases node, 1
  {
    match node
    case File(name) =>
      assert FilePaths(path, node)[1..] == [];
    case Dir(_, _) => MatchingFromSelects(path, node, 0);
    case _ =>
  }

  lemma {:induction false} MatchingFromSelects(path: string, dir: Node, i: nat)
    requires dir.Dir? && i <= |dir.entries|
    ensures MatchingFrom(path, dir, i) == Selected(FilePathsFrom(path, dir, i))
    decreases dir, 0, |dir.entries| - i
  {
    if i < |dir.entries| {
      var cp := ChildPath(path, dir.entries[i]);
      MatchingSelects(cp, dir.entries[i]);
      MatchingFromSelects(path, dir, i + 1);
      SelectedAppend(FilePaths(cp, dir.entries[i]), FilePathsFrom(path, dir, i + 1));
    }
  }

  /**
    On a tree where every directory lists, the walk succeeds and lists a
    path exactly when some file of the tree has that path and a name that
    starts with `client_secret` and ends with `.json`.
  */
  lemma CollectListsExactly(path: string, node: Node)
    requires Readable(node)
    ensures Collect(path, node).Ok?
    ensures forall p :: p in Collect(path, node).value <==>
      exists f :: f in FilePaths(path, node) && IsClientSecretName(f.1) && f.0 == p
  {
    CollectMeaning(path, node);
    MatchingSelects(path, node);
    SelectedMembers(FilePaths(path, node));
  }

  /**
    `parse_client_secret`: `read` stands for opening the file and decoding
    its JSON (None when either fails); the id and the secret must be non-empty,
    checked in that order.
  */
  function ParseClientSecret(read: string -> Option<ClientSecret>, path: string): (r: Result<ClientSecret, ConfigError>)
    ensures r.Ok? <==> read(path).Some? && read(path).value.installed.clientId != "" && read(path).value.installed.clientSecret != ""
    ensures r.Ok? ==> r.value == read(path).value
    ensures r == Err(ParseFailed) <==> read(path).None?
    ensures r == Err(InvalidClientId) <==> read(path).Some? && read(path).value.installed.clientId == ""
    ensures r == Err(InvalidClientSecret) ==> read(path).value.installed.clientId != ""
  {
    match read(path)
    case None => Err(ParseFailed)
    case Some(secret) =>
      if secret.installed.clientId == "" then Err(InvalidClientId)
      else if secret.installed.clientSecret == "" then Err(InvalidClientSecret)
      else Ok(secret)
  }

  /** The first candidate that parses and validates; NotFound when none does. */
  function FirstValid(read: string -> Option<ClientSecret>, files: seq<string>): Result<ClientSecret, ConfigError> {
    if |files| == 0 then Err(NotFound)
    else
      match ParseClientSecret(read, files[0])
      case Ok(secret) => Ok(secret)
      case Err(_) => FirstValid(read, files[1..])
  }

  /** What `configure` returns when the current directory is `root`. */
  function Configured(root: Node, read: string -> Option<ClientSecret>): Result<ClientSecret, ConfigError> {
    match Collect(".", root)
    case Err(e) => Err(e)
    case Ok(files) => if |files| == 0 then Err(NotFound) else FirstValid(read, files)
  }

  /** `configure`: enumerate from ".", then try the candidates in order. */
  method Configure(root: Node, read: string -> Option<ClientSecret>) returns (r: Result<ClientSecret, ConfigError>)
    ensures r == Configured(root, read)
  {
    var listed := EnumerateClientSecret(".", root);
    if listed.Err? {
      return Err(listed.error);
    }
    var files := listed.value;
    if |files| == 0 {
      return Err(NotFound);
    }
    for i := 0 to |files|
      invariant FirstValid(read, files) == FirstValid(read, files[i..])
    {
      assert files[i..][1..] == files[i + 1..];
      var result := ParseClientSecret(read, files[i]);
      if result.Err? {
        continue;
      }
      return Ok(result.value);
    }
    return Err(NotFound);
  }

  /** FirstValid picks the earliest candidate that is accepted, and fails only when none is. */
  lemma {:induction false} FirstValidIsEarliest(read: string -> Option<ClientSecret>, files: seq<string>)
    ensures FirstValid(read, files).Ok? <==> exists i :: 0 <= i < |files| && ParseClientSecret(read, files[i]).Ok?
    ensures FirstValid(read, files).Err? ==> FirstValid(read, files) == Err(NotFound)
    ensures FirstValid(read, files).Ok? ==>
      exists i :: 0 <= i < |files| && ParseClientSecret(read, files[i]) == FirstValid(read, files)
        && forall j :: 0 <= j < i ==> ParseClientSecret(read, files[j]).Err?
  {
    if |files| > 0 {
      FirstValidIsEarliest(read, files[1..]);
      if ParseClientSecret(read, files[0]).Err? {
        if FirstValid(read, files).Ok? {
          var i :| 0 <= i < |files[1..]| && ParseClientSecret(read, files[1..][i]) == FirstValid(read, files[1..])
            && forall j :: 0 <= j < i ==> ParseClientSecret(read, files[1..][j]).Err?;
          assert ParseClientSecret(read, files[i + 1]) == FirstValid(read, files);
          forall j | 0 <= j < i + 1
            ensures ParseClientSecret(read, files[j]).Err?
          {
            if j > 0 {
              assert files[j] == files[1..][j - 1];
            }
          }
        } else {
          forall i | 0 <= i < |files|
            ensures ParseClientSecret(read, files[i]).Err?
          {
            if i > 0 {
              assert files[i] == files[1..][i - 1];
            }
          }
        }
      }
    }
  }

  /**
    `configure` succeeds exactly when the tree can be walked and some listed
    `client_secret*.json` file parses with a non-empty id and secret; it then
    returns the earliest such file's record.
  */
  lemma ConfigureChoosesFirst(root: Node, read: string -> Option<ClientSecret>)
    ensures Configured(root, read) == Err(EnumerationFailed) <==> !Readable(root)
    ensures Configured(root, read).Ok? <==>
      Readable(root) && exists i :: 0 <= i < |MatchingFiles(".", root)| && ParseClientSecret(read, MatchingFiles(".", root)[i]).Ok?
    ensures Configured(root, read).Ok? ==>
      exists i :: 0 <= i < |MatchingFiles(".", root)| && ParseClientSecret(read, MatchingFiles(".", root)[i]) == Configured(root, read)
        && forall j :: 0 <= j < i ==> ParseClientSecret(read, MatchingFiles(".", root)[j]).Err?
    ensures Configured(root, read).Ok? ==>
      Configured(root, read).value.installed.clientId != "" && Configured(root, read).value.installed.clientSecret != ""
  {
    CollectMeaning(".", root);
    FirstValidIsEarliest(read, MatchingFiles(".", root));
  }
}
