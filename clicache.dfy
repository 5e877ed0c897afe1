/** The command cache of clicache/__init__.py: results of shell commands are
    stored on disk under the SHA-1 of the command text, one directory per
    result, with a `current` symbolic link naming the live one.  The
    filesystem is FileSystem's in-memory tree; SHA-1, the clock, the fresh
    uuid and the command runner are parameters. */
module CliCache {
  import opened Common
  import opened FileSystem
  import Decimal
  import Shell

  predicate IsLowerHex(c: char) { ('0' <= c <= '9') || ('a' <= c <= 'f') }

  /** `hexdigest()` of a SHA-1: forty lower-case hex digits. */
  type Digest = s: string | |s| == 40 && forall i :: 0 <= i < |s| ==> IsLowerHex(s[i])
    witness "0000000000000000000000000000000000000000"

  /** `str(uuid.uuid1())`: thirty-six characters. */
  type EntryId = s: string | |s| == 36 witness "00000000-0000-0000-0000-000000000000"

  // The file names of an entry and of the live link.
  const FNAME_T: Name := "t"
  const FNAME_R: Name := "r"
  const FNAME_STDOUT: Name := "stdout"
  const FNAME_STDERR: Name := "stderr"
  const FNAME_RETURNCODE: Name := "returncode"
  const CURRENT: Name := "current"

  /** `sys.maxint` on a 64-bit build. */
  const MAXINT: int := 9223372036854775807

  /** Clock values are whole microseconds; ages are compared in seconds. */
  const MICROS: int := 1000000

  /** What a command produced: `(stdout, stderr, returncode)`. */
  datatype Completed = Completed(stdout: string, stderr: string, returncode: int)

  /** Why a lookup raised something other than `CacheMiss`. */
  datatype Fault =
    | OsFault(error: OsError)  // an OSError or IOError from the filesystem
    | NoHandle                 // the open loop never ran
    | BadTimestamp             // `float()` rejected the `t` file
    | BadReturncode            // `int()` rejected the `returncode` file
    | UnboundCanonical         // `canonical` was never bound (a NameError)

  datatype MissReason = NoEntry | TooOld

  /** The outcome of `_cached_runsh`: a result, `CacheMiss`, or another exception. */
  datatype Lookup = Hit(result: Completed) | Miss(reason: MissReason) | Fatal(fault: Fault)

  // ---------------------------------------------------------------------------
  // _hash and _hash2dir

  /** The shell code a command stands for: string code as is, an argument
      vector through `argv2sh`, and standard input as an `echo` piped in. */
  function ReverseText(sh: Shell.Command, input: Option<string>): string
  {
    var code := match sh
      case ShellCode(text) => text
      case ArgList(args) => Shell.CommandLineAsWritten(args);
    match input
    case None => code
    case Some(x) => "echo " + Shell.ShQuote(x) + " | " + code
  }

  /** `_hash(sh, inputstr)`: the digest of the reverse text, and that text.
      An argument list's text reads back as the list unless some argument is
      a safe word followed by a newline (see `Shell.NewlineBare`). */
  function Hash(sha1: string -> Digest, sh: Shell.Command, input: Option<string>): (hr: (Digest, string))
    ensures hr.0 == sha1(hr.1)
    ensures sh.ShellCode? && input.None? ==> hr.1 == sh.text
    ensures sh.ArgList? && input.None? ==> hr.1 == Shell.CommandLineAsWritten(sh.args)
    ensures sh.ArgList? && input.None? && (forall i :: 0 <= i < |sh.args| ==> !Shell.NewlineBare(sh.args[i])) ==>
      Shell.Words(hr.1) == Some(sh.args)
    ensures input.Some? ==> hr.1 == "echo " + Shell.ShQuote(input.value) + " | " + ReverseText(sh, None)
  {
    var r := ReverseText(sh, input);
    if sh.ArgList? && forall i :: 0 <= i < |sh.args| ==> !Shell.NewlineBare(sh.args[i]) then
      Shell.AsWrittenAgrees(sh.args);
      Shell.CommandLineWords(sh.args);
      (sha1(r), r)
    else
      (sha1(r), r)
  }

  /** The same command with different standard input hashes different text. */
  lemma StdinDistinguishes(sh: Shell.Command, x: string, y: string)
    requires ReverseText(sh, Some(x)) == ReverseText(sh, Some(y))
    ensures x == y
  {
    var code := ReverseText(sh, None);
    PipedTail(Shell.ShQuote(x), code);
    PipedTail(Shell.ShQuote(y), code);
    Shell.ReadQuoted(x, " | " + code);
    Shell.ReadQuoted(y, " | " + code);
  }

  lemma PipedTail(quoted: string, code: string)
    ensures ("echo " + quoted + " | " + code)[5..] == quoted + (" | " + code)
  {
    var s := "echo " + quoted + " | " + code;
    Shell.AppendAssoc("echo " + quoted, " | ", code);
    Shell.AppendAssoc("echo ", quoted, " | " + code);
    assert s == "echo " + (quoted + (" | " + code));
  }

  /** The reverse text of `['/bin/echo', 'foo bar']`. */
  lemma ReverseTextOfList()
    ensures ReverseText(Shell.ArgList(["/bin/echo", "foo bar"]), None) == "/bin/echo 'foo bar'"
  {
    var argv := ["/bin/echo", "foo bar"];
    RenderedBare("/bin/echo");
    RenderedQuoted("foo bar");
    assert argv[..1] == [argv[0]];
    JoinedExample(Shell.RenderAsWritten(argv[0]), Shell.RenderAsWritten(argv[1]));
  }

  /** The reverse text of `['cat']` fed `'foo bar'` on standard input. */
  lemma ReverseTextWithInput()
    ensures ReverseText(Shell.ArgList(["cat"]), Some("foo bar")) == "echo 'foo bar' | cat"
  {
    RenderedBare("cat");
    RenderedQuoted("foo bar");
    PipedExample(Shell.ShQuote("foo bar"), Shell.CommandLineAsWritten(["cat"]));
  }

  // The literal steps of the two examples above.  Each is stated over
  // parameters so that the solver meets one literal at a time: written
  // inline, the concatenations of string literals in one proof cost the
  // solver more than these small separate steps.

  lemma RenderedBare(w: string)
    requires w == "/bin/echo" || w == "cat"
    ensures Shell.RenderAsWritten(w) == w
  {
    assert Shell.IsSafeWord(w);
  }

  lemma RenderedQuoted(w: string)
    requires w == "foo bar"
    ensures Shell.RenderAsWritten(w) == Shell.ShQuote(w) == "'foo bar'"
  {
    assert !Shell.IsSafeChar(w[3]);
    assert !Shell.MatchesAsWritten(w) by {
      assert w[|w| - 1] != '\n';
    }
    Shell.ShQuoteNoQuote(w);
  }

  lemma JoinedExample(a: string, b: string)
    requires a == "/bin/echo" && b == "'foo bar'"
    ensures a + " " + b == "/bin/echo 'foo bar'"
  {
  }

  lemma PipedExample(a: string, b: string)
    requires a == "'foo bar'" && b == "cat"
    ensures "echo " + a + " | " + b == "echo 'foo bar' | cat"
  {
  }

  /** `_hash2dir(h)`: `root/h[0:2]/h[2:4]/h`. */
  function Hash2Dir(root: Path, h: Digest): (base: Path)
    ensures |base| == |root| + 3 && Within(base, root)
  {
    root + [h[..2], h[2..4], h]
  }

  /** Different digests own disjoint directories, and equal ones the same. */
  lemma KeyDirsDisjoint(root: Path, h1: Digest, h2: Digest, p: Path)
    requires Within(p, Hash2Dir(root, h1)) && Within(p, Hash2Dir(root, h2))
    ensures h1 == h2
  {
    var b1, b2 := Hash2Dir(root, h1), Hash2Dir(root, h2);
    assert b1 == p[..|root| + 3] == b2;
    assert b1[|root| + 2] == h1 && b2[|root| + 2] == h2;
  }

  // ---------------------------------------------------------------------------
  // _cache

  /** The five files of an entry as they are read back. */
  datatype Opened = Opened(t: string, r: string, stdout: string, stderr: string, returncode: string)

  /** The directory `entry` holds the five files with these contents. */
  predicate EntryHolds(nodes: Tree, entry: Path, f: Opened)
  {
    && entry + [FNAME_T] in nodes && nodes[entry + [FNAME_T]] == File(f.t)
    && entry + [FNAME_R] in nodes && nodes[entry + [FNAME_R]] == File(f.r)
    && entry + [FNAME_STDOUT] in nodes && nodes[entry + [FNAME_STDOUT]] == File(f.stdout)
    && entry + [FNAME_STDERR] in nodes && nodes[entry + [FNAME_STDERR]] == File(f.stderr)
    && entry + [FNAME_RETURNCODE] in nodes && nodes[entry + [FNAME_RETURNCODE]] == File(f.returncode)
  }

  /** What `_cache` writes: the clock at write time, the reverse text, the
      output, and the status in decimal. */
  function Contents(now: int, r: string, stdout: string, stderr: string, returncode: int): Opened
  {
    Opened(Decimal.FormatTimestamp(now), r, stdout, stderr, Decimal.FormatInt(returncode))
  }

  /** The tree after a fresh entry directory with its five files is added. */
  function WithEntry(nodes: Tree, entry: Path, f: Opened): Tree
  {
    nodes[entry := Dir]
      [entry + [FNAME_T] := File(f.t)]
      [entry + [FNAME_R] := File(f.r)]
      [entry + [FNAME_STDOUT] := File(f.stdout)]
      [entry + [FNAME_STDERR] := File(f.stderr)]
      [entry + [FNAME_RETURNCODE] := File(f.returncode)]
  }

  /** `os.mkdir(new_canonical)` and the five writes, stopping at the first
      failure. */
  function WriteEntry(nodes: Tree, entry: Path, f: Opened): Outcome
    requires entry != []
  {
    var o0 := MkdirOf(nodes, entry);
    if o0.error.Some? then o0 else
    var o1 := WriteFileOf(o0.nodes, entry + [FNAME_T], f.t);
    if o1.error.Some? then o1 else
    var o2 := WriteFileOf(o1.nodes, entry + [FNAME_R], f.r);
    if o2.error.Some? then o2 else
    var o3 := WriteFileOf(o2.nodes, entry + [FNAME_STDOUT], f.stdout);
    if o3.error.Some? then o3 else
    var o4 := WriteFileOf(o3.nodes, entry + [FNAME_STDERR], f.stderr);
    if o4.error.Some? then o4 else
    WriteFileOf(o4.nodes, entry + [FNAME_RETURNCODE], f.returncode)
  }

  /** The tree, the exception (if any), and the target `current` named just
      before the rename (None when it did not exist or was never read). */
  datatype Cached = Cached(nodes: Tree, error: Option<OsError>, previous: Option<Name>)

  function TmpLink(id: EntryId): Name { "current." + id }

  /** The pointer update: a temporary link to the new entry, the old
      target read, the link renamed over `current`, the old target removed. */
  function Publish(nodes: Tree, base: Path, id: EntryId): Cached
    requires base != []
  {
    var tmp := base + [TmpLink(id)];
    var current := base + [CURRENT];
    var linked := SymlinkOf(nodes, id, tmp);
    if linked.error.Some? then Cached(linked.nodes, linked.error, None) else
    var prior := ReadLinkOf(linked.nodes, current);
    if prior.Err? && prior.error != ENOENT then Cached(linked.nodes, Some(prior.error), None) else
    var renamed := RenameOf(linked.nodes, tmp, current);
    if renamed.error.Some? then Cached(renamed.nodes, renamed.error, None) else
    match prior
    case Ok(target) => Cached(RmtreeOf(renamed.nodes, base + [target]), None, Some(target))
    case Err(_) => Cached(renamed.nodes, None, None)
  }

  /** `_cache(h, r, t, stdout, stderr, returncode)` run at clock `now` with
      fresh uuid `id`; the argument `t` takes no part. */
  function CacheOf(nodes: Tree, root: Path, h: Digest, r: string, t: int, stdout: string, stderr: string,
                   returncode: int, now: int, id: EntryId): Cached
  {
    var base := Hash2Dir(root, h);
    var made := MakeDirsOf(nodes, base);
    if made.error.Some? && made.error != Some(EEXIST) then Cached(made.nodes, made.error, None) else
    var written := WriteEntry(made.nodes, base + [id], Contents(now, r, stdout, stderr, returncode));
    if written.error.Some? then Cached(written.nodes, written.error, None) else
    Publish(written.nodes, base, id)
  }

  lemma NoChildOfMissing(nodes: Tree, entry: Path, n: Name)
    requires IsTree(nodes) && entry !in nodes
    ensures entry + [n] !in nodes
  {
    assert Parent(entry + [n]) == entry;
  }

  /** With the entry absent and its parent a directory, every step of
      `WriteEntry` succeeds. */
  lemma WriteEntryOk(nodes: Tree, entry: Path, f: Opened)
    requires IsTree(nodes) && entry != [] && Parent(entry) in nodes && nodes[Parent(entry)] == Dir && entry !in nodes
    ensures WriteEntry(nodes, entry, f) == Outcome(WithEntry(nodes, entry, f), None)
    ensures IsTree(WithEntry(nodes, entry, f))
  {
    var n0 := nodes[entry := Dir];
    assert MkdirOf(nodes, entry) == Outcome(n0, None);
    forall n: Name
      ensures entry + [n] !in n0
    {
      NoChildOfMissing(nodes, entry, n);
      assert entry + [n] != entry;
    }
    var n1 := WriteNew(n0, entry, FNAME_T, f.t);
    var n2 := WriteNew(n1, entry, FNAME_R, f.r);
    var n3 := WriteNew(n2, entry, FNAME_STDOUT, f.stdout);
    var n4 := WriteNew(n3, entry, FNAME_STDERR, f.stderr);
    var n5 := WriteNew(n4, entry, FNAME_RETURNCODE, f.returncode);
  }

  /** Writes a file that does not exist yet into the directory `entry`,
      keeping the entry's other child names free. */
  lemma WriteNew(nodes: Tree, entry: Path, name: Name, data: string) returns (m: Tree)
    requires IsTree(nodes) && entry in nodes && nodes[entry] == Dir && entry + [name] !in nodes
    ensures m == nodes[entry + [name] := File(data)] && IsTree(m)
    ensures WriteFileOf(nodes, entry + [name], data) == Outcome(m, None)
    ensures forall n: Name :: n != name && entry + [n] !in nodes ==> entry + [n] !in m
  {
    assert Parent(entry + [name]) == entry;
    m := nodes[entry + [name] := File(data)];
    forall n: Name | n != name
      ensures entry + [n] != entry + [name]
    {
      assert (entry + [n])[|entry|] == n;
    }
  }

  /** `WriteEntry` fails only when `mkdir` does, and then changes nothing. */
  lemma WriteEntryFails(nodes: Tree, entry: Path, f: Opened)
    requires IsTree(nodes) && entry != []
    ensures var o := WriteEntry(nodes, entry, f);
      o.error.Some? <==> !(Parent(entry) in nodes && nodes[Parent(entry)] == Dir && entry !in nodes)
    ensures WriteEntry(nodes, entry, f).error.Some? ==> WriteEntry(nodes, entry, f).nodes == nodes
  {
    if Parent(entry) in nodes && nodes[Parent(entry)] == Dir && entry !in nodes {
      WriteEntryOk(nodes, entry, f);
    }
  }

  /** The old entry `rmtree` takes away: everything below the directory the
      old link named, when it named a directory. */
  predicate Removed(nodes: Tree, base: Path, previous: Option<Name>, q: Path)
  {
    previous.Some? && base + [previous.value] in nodes && nodes[base + [previous.value]] == Dir
    && Within(q, base + [previous.value])
  }

  /** The pointer update in a directory: it fails only if the temporary
      link's name is taken or `current` exists but is not a link, and then
      adds at most the temporary link; otherwise `current` names the new
      entry, the temporary link is gone, the entry `current` named before is
      removed, and nothing else changes. */
  lemma PublishSpec(nodes: Tree, base: Path, id: EntryId)
    requires IsTree(nodes) && base != [] && base in nodes && nodes[base] == Dir
    ensures IsTree(Publish(nodes, base, id).nodes)
    ensures Publish(nodes, base, id).error.None? <==>
      base + [TmpLink(id)] !in nodes && (base + [CURRENT] in nodes ==> nodes[base + [CURRENT]].Symlink?)
    ensures var p := Publish(nodes, base, id);
      p.error.Some? ==>
        (&& p.previous.None?
         && (forall q :: q in nodes ==> q in p.nodes && p.nodes[q] == nodes[q])
         && (forall q :: q in p.nodes && q !in nodes ==> q == base + [TmpLink(id)]))
    ensures var p := Publish(nodes, base, id);
      p.error.None? ==>
        (base + [CURRENT] in p.nodes && p.nodes[base + [CURRENT]] == Symlink(id) && base + [TmpLink(id)] !in p.nodes)
    ensures var p := Publish(nodes, base, id);
      p.error.None? ==>
        (&& (p.previous.Some? <==> base + [CURRENT] in nodes)
         && (p.previous.Some? ==> nodes[base + [CURRENT]] == Symlink(p.previous.value)))
    ensures var p := Publish(nodes, base, id);
      p.error.None? ==> forall q :: q != base + [CURRENT] && q != base + [TmpLink(id)] ==>
        (q in p.nodes <==> q in nodes && !Removed(nodes, base, p.previous, q))
        && (q in p.nodes ==> p.nodes[q] == nodes[q])
  {
    var tmp, cur := base + [TmpLink(id)], base + [CURRENT];
    NamesDistinct(base, id);
    assert Parent(tmp) == base && Parent(cur) == base;
    DirErrorNone(nodes, base);
    if tmp in nodes || (cur in nodes && !nodes[cur].Symlink?) {
      PublishFails(nodes, base, id);
    } else {
      PublishSucceeds(nodes, base, id);
    }
  }

  /** The pointer update stops at the temporary link when its name is taken,
      and before the rename when `current` is not a link. */
  lemma PublishFails(nodes: Tree, base: Path, id: EntryId)
    requires IsTree(nodes) && base != [] && base in nodes && nodes[base] == Dir
    requires var cur := base + [CURRENT];
      base + [TmpLink(id)] in nodes || (cur in nodes && !nodes[cur].Symlink?)
    ensures var p := Publish(nodes, base, id);
      && p.error.Some? && p.previous.None? && IsTree(p.nodes)
      && p.nodes == if base + [TmpLink(id)] in nodes then nodes else nodes[base + [TmpLink(id)] := Symlink(id)]
  {
    var tmp, cur := base + [TmpLink(id)], base + [CURRENT];
    NamesDistinct(base, id);
    assert Parent(tmp) == base && Parent(cur) == base;
    DirErrorNone(nodes, base);
    var linked := SymlinkOf(nodes, id, tmp);
    if linked.error.None? {
      var n3 := linked.nodes;
      assert cur in n3 && n3[cur] == nodes[cur];
      DirErrorNone(n3, base);
      assert ReadLinkOf(n3, cur) == Err(EINVAL);
    }
  }

  /** With the temporary name free and `current` absent or a link, the
      pointer update renames the link over `current` and removes the old
      target's tree. */
  lemma PublishSucceeds(nodes: Tree, base: Path, id: EntryId)
    requires IsTree(nodes) && base != [] && base in nodes && nodes[base] == Dir
    requires var cur := base + [CURRENT];
      base + [TmpLink(id)] !in nodes && (cur in nodes ==> nodes[cur].Symlink?)
    ensures var cur := base + [CURRENT];
      var previous := if cur in nodes then Some(nodes[cur].target) else None;
      var moved := nodes[cur := Symlink(id)];
      Publish(nodes, base, id) ==
        Cached(if previous.Some? then RmtreeOf(moved, base + [previous.value]) else moved, None, previous)
    ensures IsTree(nodes[base + [CURRENT] := Symlink(id)])
  {
    var tmp, cur := base + [TmpLink(id)], base + [CURRENT];
    NamesDistinct(base, id);
    assert Parent(tmp) == base && Parent(cur) == base;
    DirErrorNone(nodes, base);
    var n3 := nodes[tmp := Symlink(id)];
    assert SymlinkOf(nodes, id, tmp) == Outcome(n3, None);
    DirErrorNone(n3, base);
    assert cur in n3 <==> cur in nodes;
    assert cur in nodes ==> n3[cur] == nodes[cur];
    var renamed := RenameOf(n3, tmp, cur);
    assert (n3 - {tmp})[cur := Symlink(id)] == nodes[cur := Symlink(id)];
    SetKeepsTree(nodes, cur, Symlink(id));
  }

  /** The key's directory exists, or `os.makedirs` can create it. */
  predicate Usable(nodes: Tree, base: Path)
  {
    (base in nodes && nodes[base] == Dir) || (base !in nodes && DirError(nodes, base) == Some(ENOENT))
  }

  /** `_cache` in two stages: when the key's directory is usable and the
      entry name is free, the entry is written in full and the pointer update
      runs on the result; otherwise it stops with an error after `makedirs`
      has created what it could. */
  lemma CacheStages(nodes: Tree, root: Path, h: Digest, r: string, t: int, stdout: string, stderr: string,
                    returncode: int, now: int, id: EntryId)
    requires IsTree(nodes)
    ensures var base := Hash2Dir(root, h);
      var made := MakeDirsOf(nodes, base);
      var c := CacheOf(nodes, root, h, r, t, stdout, stderr, returncode, now, id);
      && IsTree(made.nodes)
      && (forall q :: q in nodes ==> q in made.nodes && made.nodes[q] == nodes[q])
      && (forall q :: q in made.nodes && q !in nodes ==> Within(base, q) && made.nodes[q] == Dir)
      && (Usable(nodes, base) && base + [id] !in nodes ==>
            && base in made.nodes && made.nodes[base] == Dir && base + [id] !in made.nodes
            && c == Publish(WithEntry(made.nodes, base + [id], Contents(now, r, stdout, stderr, returncode)), base, id))
      && (!(Usable(nodes, base) && base + [id] !in nodes) ==>
            c.error.Some? && c.previous.None? && c.nodes == made.nodes)
  {
    var base := Hash2Dir(root, h);
    var entry := base + [id];
    var f := Contents(now, r, stdout, stderr, returncode);
    assert Parent(entry) == base;
    MakeDirsSpec(nodes, base);
    var made := MakeDirsOf(nodes, base);
    if base !in nodes {
      MakeDirsSucceeds(nodes, base);
      NoChildOfMissing(nodes, base, id);
    }
    WriteEntryFails(made.nodes, entry, f);
    if Usable(nodes, base) && entry !in nodes {
      WriteEntryOk(made.nodes, entry, f);
    }
  }

  /** Writing an entry touches nothing outside the entry's own subtree. */
  lemma WithEntryAgrees(nodes: Tree, entry: Path, f: Opened)
    ensures forall q :: !Within(q, entry) ==>
      (q in WithEntry(nodes, entry, f) <==> q in nodes)
      && (q in nodes ==> WithEntry(nodes, entry, f)[q] == nodes[q])
  {
    assert Within(entry + [FNAME_T], entry) && Within(entry + [FNAME_R], entry);
    assert Within(entry + [FNAME_STDOUT], entry) && Within(entry + [FNAME_STDERR], entry);
    assert Within(entry + [FNAME_RETURNCODE], entry);
  }

  /** The names `_cache` uses in the key's directory are distinct. */
  lemma NamesDistinct(base: Path, id: EntryId)
    ensures base + [TmpLink(id)] != base + [CURRENT]
    ensures !Within(base + [TmpLink(id)], base + [id]) && !Within(base + [CURRENT], base + [id])
  {
    assert (base + [TmpLink(id)])[|base|] == TmpLink(id);
    assert (base + [CURRENT])[|base|] == CURRENT;
    assert (base + [id])[..|base| + 1] == base + [id];
    assert |TmpLink(id)| == 44;
  }

  /** `_cache` raises exactly when the key's directory can be neither found
      nor made, when the entry name is taken, when the temporary link's name
      is taken, or when `current` exists but is not a symbolic link. */
  lemma CacheFailsIff(nodes: Tree, root: Path, h: Digest, r: string, t: int, stdout: string, stderr: string,
                      returncode: int, now: int, id: EntryId)
    requires IsTree(nodes)
    ensures var base := Hash2Dir(root, h);
      CacheOf(nodes, root, h, r, t, stdout, stderr, returncode, now, id).error.None? <==>
        && Usable(nodes, base)
        && base + [id] !in nodes
        && base + [TmpLink(id)] !in nodes
        && (base + [CURRENT] in nodes ==> nodes[base + [CURRENT]].Symlink?)
  {
    var base := Hash2Dir(root, h);
    var entry := base + [id];
    var f := Contents(now, r, stdout, stderr, returncode);
    CacheStages(nodes, root, h, r, t, stdout, stderr, returncode, now, id);
    if Usable(nodes, base) && entry !in nodes {
      var made := MakeDirsOf(nodes, base);
      var n2 := WithEntry(made.nodes, entry, f);
      WriteEntryOk(made.nodes, entry, f);
      PublishSpec(n2, base, id);
      WithEntryAgrees(made.nodes, entry, f);
      NamesDistinct(base, id);
    }
  }

  /** After a successful `_cache`: `current` is a symbolic link to the new
      id, the temporary link is gone, the new entry's name did not exist
      before, and the recorded previous target is what `current` named
      before the call (None when there was no `current`). */
  lemma CachePublishes(nodes: Tree, root: Path, h: Digest, r: string, t: int, stdout: string, stderr: string,
                       returncode: int, now: int, id: EntryId)
    requires IsTree(nodes)
    ensures var base := Hash2Dir(root, h);
      var c := CacheOf(nodes, root, h, r, t, stdout, stderr, returncode, now, id);
      c.error.None? ==>
        && IsTree(c.nodes)
        && base + [CURRENT] in c.nodes && c.nodes[base + [CURRENT]] == Symlink(id)
        && base + [TmpLink(id)] !in c.nodes
        && base + [id] !in nodes
        && (c.previous.Some? <==> base + [CURRENT] in nodes)
        && (c.previous.Some? ==> nodes[base + [CURRENT]] == Symlink(c.previous.value))
  {
    var base := Hash2Dir(root, h);
    var entry := base + [id];
    var f := Contents(now, r, stdout, stderr, returncode);
    CacheStages(nodes, root, h, r, t, stdout, stderr, returncode, now, id);
    if Usable(nodes, base) && entry !in nodes {
      var made := MakeDirsOf(nodes, base);
      var n2 := WithEntry(made.nodes, entry, f);
      WriteEntryOk(made.nodes, entry, f);
      PublishSpec(n2, base, id);
      WithEntryAgrees(made.nodes, entry, f);
      NamesDistinct(base, id);
    }
  }

  /** After a successful `_cache` whose old `current` did not already name
      the new id, the new entry holds the five files: `t` the clock at write
      time, `r` the reverse text, the output, and the status in decimal. */
  lemma CacheWritesEntry(nodes: Tree, root: Path, h: Digest, r: string, t: int, stdout: string, stderr: string,
                         returncode: int, now: int, id: EntryId)
    requires IsTree(nodes)
    ensures var base := Hash2Dir(root, h);
      var c := CacheOf(nodes, root, h, r, t, stdout, stderr, returncode, now, id);
      c.error.None? && c.previous != Some(id) ==>
        && base + [id] in c.nodes && c.nodes[base + [id]] == Dir
        && EntryHolds(c.nodes, base + [id], Contents(now, r, stdout, stderr, returncode))
  {
    var base := Hash2Dir(root, h);
    var entry := base + [id];
    var f := Contents(now, r, stdout, stderr, returncode);
    CacheStages(nodes, root, h, r, t, stdout, stderr, returncode, now, id);
    var c := CacheOf(nodes, root, h, r, t, stdout, stderr, returncode, now, id);
    if Usable(nodes, base) && entry !in nodes && c.error.None? && c.previous != Some(id) {
      var made := MakeDirsOf(nodes, base);
      var n2 := WithEntry(made.nodes, entry, f);
      WriteEntryOk(made.nodes, entry, f);
      WithEntryHolds(made.nodes, entry, f);
      PublishKeepsEntry(n2, base, id, f);
    }
  }

  lemma WithEntryHolds(nodes: Tree, entry: Path, f: Opened)
    ensures var n := WithEntry(nodes, entry, f);
      entry in n && n[entry] == Dir && EntryHolds(n, entry, f)
  {
    assert entry + [FNAME_T] != entry + [FNAME_R] by { assert (entry + [FNAME_T])[|entry|] == FNAME_T; }
    assert entry + [FNAME_R] != entry + [FNAME_STDOUT] by { assert (entry + [FNAME_R])[|entry|] == FNAME_R; }
    assert entry + [FNAME_T] != entry + [FNAME_STDOUT] by { assert (entry + [FNAME_T])[|entry|] == FNAME_T; }
    assert (entry + [FNAME_STDOUT])[|entry|] == FNAME_STDOUT;
    assert (entry + [FNAME_STDERR])[|entry|] == FNAME_STDERR;
    assert (entry + [FNAME_RETURNCODE])[|entry|] == FNAME_RETURNCODE;
  }

  /** The pointer update leaves the new entry alone, unless the old link
      already named the new id. */
  lemma PublishKeepsEntry(nodes: Tree, base: Path, id: EntryId, f: Opened)
    requires IsTree(nodes) && base != [] && base in nodes && nodes[base] == Dir
    requires base + [id] in nodes && nodes[base + [id]] == Dir && EntryHolds(nodes, base + [id], f)
    ensures var p := Publish(nodes, base, id);
      p.error.None? && p.previous != Some(id) ==>
        base + [id] in p.nodes && p.nodes[base + [id]] == Dir && EntryHolds(p.nodes, base + [id], f)
  {
    var p := Publish(nodes, base, id);
    var entry := base + [id];
    NamesDistinct(base, id);
    PublishSpec(nodes, base, id);
    if p.error.None? && p.previous != Some(id) {
      KeptBelowEntry(nodes, p, base, id, FNAME_T);
      KeptBelowEntry(nodes, p, base, id, FNAME_R);
      KeptBelowEntry(nodes, p, base, id, FNAME_STDOUT);
      KeptBelowEntry(nodes, p, base, id, FNAME_STDERR);
      KeptBelowEntry(nodes, p, base, id, FNAME_RETURNCODE);
    }
  }

  lemma KeptBelowEntry(nodes: Tree, p: Cached, base: Path, id: EntryId, name: Name)
    requires p.previous != Some(id)
    requires forall q :: q != base + [CURRENT] && q != base + [TmpLink(id)] ==>
        (q in p.nodes <==> q in nodes && !Removed(nodes, base, p.previous, q))
        && (q in p.nodes ==> p.nodes[q] == nodes[q])
    ensures var q := base + [id] + [name];
      q in nodes ==> q in p.nodes && p.nodes[q] == nodes[q]
  {
    var q := base + [id] + [name];
    assert q[|base|] == id;
    assert |q| == |base| + 2;
    NamesDistinct(base, id);
  }

  /** A successful `_cache` removes the whole entry that `current` named
      before, when that was a directory. */
  lemma CacheRemovesOld(nodes: Tree, root: Path, h: Digest, r: string, t: int, stdout: string, stderr: string,
                        returncode: int, now: int, id: EntryId, q: Path)
    requires IsTree(nodes)
    ensures var base := Hash2Dir(root, h);
      var c := CacheOf(nodes, root, h, r, t, stdout, stderr, returncode, now, id);
      c.error.None? && Removed(nodes, base, c.previous, q) ==> q !in c.nodes
  {
    var base := Hash2Dir(root, h);
    var entry := base + [id];
    var f := Contents(now, r, stdout, stderr, returncode);
    CacheStages(nodes, root, h, r, t, stdout, stderr, returncode, now, id);
    var c := CacheOf(nodes, root, h, r, t, stdout, stderr, returncode, now, id);
    if Usable(nodes, base) && entry !in nodes && c.error.None? && Removed(nodes, base, c.previous, q) {
      var made := MakeDirsOf(nodes, base);
      var n2 := WithEntry(made.nodes, entry, f);
      var dead := base + [c.previous.value];
      WriteEntryOk(made.nodes, entry, f);
      PublishSpec(n2, base, id);
      WithEntryAgrees(made.nodes, entry, f);
      NamesDistinct(base, id);
      assert dead != entry;
      assert !Within(dead, entry);
      assert dead in n2 && n2[dead] == Dir;
      assert Removed(n2, base, c.previous, q);
      assert dead != base + [CURRENT] && dead != base + [TmpLink(id)];
      if q == base + [CURRENT] || q == base + [TmpLink(id)] {
        assert q[..|dead|] == dead;
      }
    }
  }

  /** What `_cache` changes: a path that existed keeps its node unless it is
      `current` or lies in the removed old entry (and on failure every path
      that existed keeps its node); a new path is a directory `makedirs`
      created on the way to the key's directory, or lies in the new entry, or
      is `current` or the temporary link. */
  lemma CacheFrame(nodes: Tree, root: Path, h: Digest, r: string, t: int, stdout: string, stderr: string,
                   returncode: int, now: int, id: EntryId)
    requires IsTree(nodes)
    ensures var base := Hash2Dir(root, h);
      var c := CacheOf(nodes, root, h, r, t, stdout, stderr, returncode, now, id);
      forall q :: q in nodes && (c.error.Some? || (q != base + [CURRENT] && !Removed(nodes, base, c.previous, q))) ==>
        q in c.nodes && c.nodes[q] == nodes[q]
    ensures var base := Hash2Dir(root, h);
      var c := CacheOf(nodes, root, h, r, t, stdout, stderr, returncode, now, id);
      forall q :: q in c.nodes && q !in nodes ==>
        || (Within(base, q) && c.nodes[q] == Dir)
        || Within(q, base + [id])
        || q == base + [CURRENT]
        || q == base + [TmpLink(id)]
  {
    var base := Hash2Dir(root, h);
    var c := CacheOf(nodes, root, h, r, t, stdout, stderr, returncode, now, id);
    forall q | q in nodes
      ensures c.error.Some? || (q != base + [CURRENT] && !Removed(nodes, base, c.previous, q)) ==>
        q in c.nodes && c.nodes[q] == nodes[q]
    {
      CacheKeeps(nodes, root, h, r, t, stdout, stderr, returncode, now, id, q);
    }
    forall q | q in c.nodes && q !in nodes
      ensures || (Within(base, q) && c.nodes[q] == Dir)
              || Within(q, base + [id])
              || q == base + [CURRENT]
              || q == base + [TmpLink(id)]
    {
      CacheAdds(nodes, root, h, r, t, stdout, stderr, returncode, now, id, q);
    }
  }

  lemma CacheKeeps(nodes: Tree, root: Path, h: Digest, r: string, t: int, stdout: string, stderr: string,
                   returncode: int, now: int, id: EntryId, q: Path)
    requires IsTree(nodes) && q in nodes
    ensures var base := Hash2Dir(root, h);
      var c := CacheOf(nodes, root, h, r, t, stdout, stderr, returncode, now, id);
      c.error.Some? || (q != base + [CURRENT] && !Removed(nodes, base, c.previous, q)) ==>
        q in c.nodes && c.nodes[q] == nodes[q]
  {
    var base := Hash2Dir(root, h);
    var entry := base + [id];
    var f := Contents(now, r, stdout, stderr, returncode);
    CacheStages(nodes, root, h, r, t, stdout, stderr, returncode, now, id);
    if Usable(nodes, base) && entry !in nodes {
      var made := MakeDirsOf(nodes, base);
      var n2 := WithEntry(made.nodes, entry, f);
      WriteEntryOk(made.nodes, entry, f);
      EntryKeeps(nodes, made.nodes, entry, f, q);
      PublishKeeps(n2, base, id, q);
      var p := Publish(n2, base, id);
      assert CacheOf(nodes, root, h, r, t, stdout, stderr, returncode, now, id) == p;
      if p.previous.Some? {
        WithEntryAgrees(made.nodes, entry, f);
        RemovedBefore(nodes, made.nodes, n2, base, id, p.previous.value, q);
      }
    }
  }

  /** Writing the entry keeps every path that existed before. */
  lemma EntryKeeps(nodes: Tree, made: Tree, entry: Path, f: Opened, q: Path)
    requires IsTree(nodes) && entry !in nodes && q in nodes && q in made && made[q] == nodes[q]
    ensures !Within(q, entry) && q in WithEntry(made, entry, f) && WithEntry(made, entry, f)[q] == nodes[q]
  {
    NothingBelowMissing(nodes, entry);
    WithEntryAgrees(made, entry, f);
  }

  /** The pointer update keeps a path unless it is `current` or below the
      old entry; on failure it keeps every path. */
  lemma PublishKeeps(nodes: Tree, base: Path, id: EntryId, q: Path)
    requires IsTree(nodes) && base != [] && base in nodes && nodes[base] == Dir && q in nodes
    ensures var p := Publish(nodes, base, id);
      p.error.Some? || (q != base + [CURRENT] && !Removed(nodes, base, p.previous, q)) ==>
        q in p.nodes && p.nodes[q] == nodes[q]
  {
    var cur := base + [CURRENT];
    if base + [TmpLink(id)] in nodes || (cur in nodes && !nodes[cur].Symlink?) {
      PublishFails(nodes, base, id);
    } else {
      PublishSucceeds(nodes, base, id);
    }
  }

  /** An old entry the update removes lay in the tree before the new entry
      was written, unless it is the new entry itself. */
  lemma RemovedBefore(nodes: Tree, made: Tree, n2: Tree, base: Path, id: EntryId, name: Name, q: Path)
    requires forall p :: p in made && p !in nodes ==> Within(base, p)
    requires forall p :: p in nodes ==> p in made && made[p] == nodes[p]
    requires forall p :: !Within(p, base + [id]) ==> (p in n2 <==> p in made) && (p in made ==> n2[p] == made[p])
    requires !Within(q, base + [id])
    ensures Removed(n2, base, Some(name), q) ==> Removed(nodes, base, Some(name), q)
  {
    var dead := base + [name];
    if Removed(n2, base, Some(name), q) {
      assert dead != base + [id];
      assert !Within(dead, base + [id]);
      assert !Within(base, dead);
    }
  }

  lemma CacheAdds(nodes: Tree, root: Path, h: Digest, r: string, t: int, stdout: string, stderr: string,
                  returncode: int, now: int, id: EntryId, q: Path)
    requires IsTree(nodes) && q !in nodes
    requires q in CacheOf(nodes, root, h, r, t, stdout, stderr, returncode, now, id).nodes
    ensures var base := Hash2Dir(root, h);
      var c := CacheOf(nodes, root, h, r, t, stdout, stderr, returncode, now, id);
      || (Within(base, q) && c.nodes[q] == Dir)
      || Within(q, base + [id])
      || q == base + [CURRENT]
      || q == base + [TmpLink(id)]
  {
    var base := Hash2Dir(root, h);
    var entry := base + [id];
    var f := Contents(now, r, stdout, stderr, returncode);
    CacheStages(nodes, root, h, r, t, stdout, stderr, returncode, now, id);
    if Usable(nodes, base) && entry !in nodes {
      var made := MakeDirsOf(nodes, base);
      var n2 := WithEntry(made.nodes, entry, f);
      WriteEntryOk(made.nodes, entry, f);
      WithEntryAgrees(made.nodes, entry, f);
      PublishSpec(n2, base, id);
    }
  }

  /** Outside the key's directory `_cache` only ever adds the directories
      on the way to it. */
  lemma CacheOutsideKey(nodes: Tree, root: Path, h: Digest, r: string, t: int, stdout: string, stderr: string,
                        returncode: int, now: int, id: EntryId, q: Path)
    requires IsTree(nodes) && !Within(q, Hash2Dir(root, h))
    ensures var c := CacheOf(nodes, root, h, r, t, stdout, stderr, returncode, now, id);
      && (q in nodes ==> q in c.nodes && c.nodes[q] == nodes[q])
      && (q in c.nodes && q !in nodes ==> Within(Hash2Dir(root, h), q) && c.nodes[q] == Dir)
  {
    var base := Hash2Dir(root, h);
    var c := CacheOf(nodes, root, h, r, t, stdout, stderr, returncode, now, id);
    WithinChild(q, base, CURRENT);
    WithinChild(q, base, TmpLink(id));
    WithinChild(q, base, id);
    assert Within(base + [CURRENT], base + [CURRENT]) && Within(base + [TmpLink(id)], base + [TmpLink(id)]);
    if q in nodes {
      CacheKeeps(nodes, root, h, r, t, stdout, stderr, returncode, now, id, q);
      if c.previous.Some? {
        WithinChild(q, base, c.previous.value);
      }
    } else if q in c.nodes {
      CacheAdds(nodes, root, h, r, t, stdout, stderr, returncode, now, id, q);
    }
  }

  /** The `_cache` call as the process makes it, one system call at a time
      on the disk. */
  method Cache(disk: Disk, root: Path, h: Digest, r: string, t: int, stdout: string, stderr: string,
               returncode: int, now: int, id: EntryId) returns (err: Option<OsError>)
    requires disk.Valid()
    modifies disk
    ensures disk.Valid()
    ensures var c := CacheOf(old(disk.nodes), root, h, r, t, stdout, stderr, returncode, now, id);
      disk.nodes == c.nodes && err == c.error
  {
    var base := Hash2Dir(root, h);
    err := disk.MakeDirs(base);
    if err.Some? && err != Some(EEXIST) {
      return;
    }
    err := WriteEntryOn(disk, base + [id], Contents(now, r, stdout, stderr, returncode));
    if err.Some? {
      return;
    }
    err := PublishOn(disk, base, id);
  }

  /** `os.mkdir(new_canonical)` and the five writes on the disk. */
  method WriteEntryOn(disk: Disk, entry: Path, f: Opened) returns (err: Option<OsError>)
    requires disk.Valid() && entry != []
    modifies disk
    ensures disk.Valid()
    ensures disk.nodes == WriteEntry(old(disk.nodes), entry, f).nodes && err == WriteEntry(old(disk.nodes), entry, f).error
  {
    err := disk.Mkdir(entry);
    if err.Some? {
      return;
    }
    err := disk.WriteFile(entry + [FNAME_T], f.t);
    if err.Some? {
      return;
    }
    err := disk.WriteFile(entry + [FNAME_R], f.r);
    if err.Some? {
      return;
    }
    err := disk.WriteFile(entry + [FNAME_STDOUT], f.stdout);
    if err.Some? {
      return;
    }
    err := disk.WriteFile(entry + [FNAME_STDERR], f.stderr);
    if err.Some? {
      return;
    }
    err := disk.WriteFile(entry + [FNAME_RETURNCODE], f.returncode);
  }

  /** The pointer update on the disk. */
  method PublishOn(disk: Disk, base: Path, id: EntryId) returns (err: Option<OsError>)
    requires disk.Valid() && base != []
    modifies disk
    ensures disk.Valid()
    ensures disk.nodes == Publish(old(disk.nodes), base, id).nodes && err == Publish(old(disk.nodes), base, id).error
  {
    var tmp := base + [TmpLink(id)];
    var current := base + [CURRENT];
    err := disk.Symlink(id, tmp);
    if err.Some? {
      return;
    }
    var prior := ReadLinkOf(disk.nodes, current);
    if prior.Err? && prior.error != ENOENT {
      return Some(prior.error);
    }
    err := disk.Rename(tmp, current);
    if err.Some? {
      return;
    }
    if prior.Ok? {
      disk.Rmtree(base + [prior.value]);
    }
  }

  // ---------------------------------------------------------------------------
  // _cached_runsh

  /** The five files of an entry exist as regular files. */
  predicate HasFiles(nodes: Tree, canonical: Path)
  {
    && canonical + [FNAME_T] in nodes && nodes[canonical + [FNAME_T]].File?
    && canonical + [FNAME_R] in nodes && nodes[canonical + [FNAME_R]].File?
    && canonical + [FNAME_STDOUT] in nodes && nodes[canonical + [FNAME_STDOUT]].File?
    && canonical + [FNAME_STDERR] in nodes && nodes[canonical + [FNAME_STDERR]].File?
    && canonical + [FNAME_RETURNCODE] in nodes && nodes[canonical + [FNAME_RETURNCODE]].File?
  }

  /** The five `open(..., 'r')` calls of one pass of the retry loop, in
      order: the contents read, or the first failure's error. */
  function OpenAll(nodes: Tree, canonical: Path): (o: Result<Opened, OsError>)
    requires canonical != []
    ensures o.Ok? ==> EntryHolds(nodes, canonical, o.value)
    ensures IsTree(nodes) ==> (o.Ok? <==> HasFiles(nodes, canonical))
  {
    match ReadFileOf(nodes, canonical + [FNAME_T])
    case Err(e) => Err(e)
    case Ok(t) =>
      match ReadFileOf(nodes, canonical + [FNAME_R])
      case Err(e) => Err(e)
      case Ok(r) =>
        match ReadFileOf(nodes, canonical + [FNAME_STDOUT])
        case Err(e) => Err(e)
        case Ok(stdout) =>
          match ReadFileOf(nodes, canonical + [FNAME_STDERR])
          case Err(e) => Err(e)
          case Ok(stderr) =>
            match ReadFileOf(nodes, canonical + [FNAME_RETURNCODE])
            case Err(e) => Err(e)
            case Ok(returncode) => Ok(Opened(t, r, stdout, stderr, returncode))
  }

  /** Reading an entry's files gives back what it holds. */
  lemma OpenAllHolds(nodes: Tree, canonical: Path, f: Opened)
    requires IsTree(nodes) && canonical != [] && EntryHolds(nodes, canonical, f)
    ensures OpenAll(nodes, canonical) == Ok(f)
  {
  }

  /** The age check and the parsing of an opened entry: `float()` of `t`,
      a miss when the entry is more than `maxage` seconds old at `now`,
      then `int()` of `returncode`. */
  function ExamineEntry(f: Opened, maxage: int, now: int): (l: Lookup)
    ensures l.Hit? || l == Miss(TooOld) || l == Fatal(BadTimestamp) || l == Fatal(BadReturncode)
    ensures l == Fatal(BadTimestamp) <==> Decimal.ParseTimestamp(f.t).None?
    ensures l == Miss(TooOld) <==>
      Decimal.ParseTimestamp(f.t).Some? && now - Decimal.ParseTimestamp(f.t).value > maxage * MICROS
    ensures l.Hit? ==>
      && now - Decimal.ParseTimestamp(f.t).value <= maxage * MICROS
      && l.result.stdout == f.stdout && l.result.stderr == f.stderr
      && Decimal.ParseInt(f.returncode) == Some(l.result.returncode)
    ensures Decimal.ParseTimestamp(f.t).Some? && now - Decimal.ParseTimestamp(f.t).value <= maxage * MICROS ==>
      l == match Decimal.ParseInt(f.returncode)
           case None => Fatal(BadReturncode)
           case Some(rc) => Hit(Completed(f.stdout, f.stderr, rc))
  {
    match Decimal.ParseTimestamp(f.t)
    case None => Fatal(BadTimestamp)
    case Some(t) =>
      if now - t > maxage * MICROS then Miss(TooOld)
      else
        match Decimal.ParseInt(f.returncode)
        case None => Fatal(BadReturncode)
        case Some(rc) => Hit(Completed(f.stdout, f.stderr, rc))
  }

  /** `_cached_runsh(h, maxage)` at clock `now`, with the retry limit
      `retries`: `current` missing is a miss; otherwise the open loop runs
      (at most once, since a failing open re-raises), and the opened entry
      is examined. */
  function CachedRunshOf(nodes: Tree, root: Path, h: Digest, maxage: int, now: int, retries: int): (l: Lookup)
    ensures var current := Hash2Dir(root, h) + [CURRENT];
      l.Hit? ==>
        && retries > 0 && current in nodes && nodes[current].Symlink?
        && HasFiles(nodes, Hash2Dir(root, h) + [nodes[current].target])
    ensures var current := Hash2Dir(root, h) + [CURRENT];
      l.Hit? && current in nodes && nodes[current].Symlink? ==>
        var entry := Hash2Dir(root, h) + [nodes[current].target];
        HasFiles(nodes, entry) ==>
          && nodes[entry + [FNAME_STDOUT]].data == l.result.stdout
          && nodes[entry + [FNAME_STDERR]].data == l.result.stderr
          && Decimal.ParseInt(nodes[entry + [FNAME_RETURNCODE]].data) == Some(l.result.returncode)
          && Decimal.ParseTimestamp(nodes[entry + [FNAME_T]].data).Some?
          && now - Decimal.ParseTimestamp(nodes[entry + [FNAME_T]].data).value <= maxage * MICROS
  {
    var base := Hash2Dir(root, h);
    var link := ReadLinkOf(nodes, base + [CURRENT]);
    if link == Err(ENOENT) then Miss(NoEntry)
    else if retries <= 0 then Fatal(NoHandle)
    else if link.Err? then Fatal(UnboundCanonical)
    else
      match OpenAll(nodes, base + [link.value])
      case Err(e) => Fatal(OsFault(e))
      case Ok(f) => ExamineEntry(f, maxage, now)
  }

  /** The lookup as the process runs it: one `readlink`, then the retry loop
      around the five opens, then the age check and the parsing. */
  method CachedRunsh(disk: Disk, root: Path, h: Digest, maxage: int, now: int, retries: int) returns (l: Lookup)
    ensures l == CachedRunshOf(disk.nodes, root, h, maxage, now, retries)
  {
    var base := Hash2Dir(root, h);
    var link := ReadLinkOf(disk.nodes, base + [CURRENT]);
    if link == Err(ENOENT) {
      return Miss(NoEntry);
    }
    var good := false;
    var f := Opened("", "", "", "", "");
    var i := 0;
    // The source leaves the loop with `break` once all five opens succeed;
    // here the guard's `!good` does.
    while i < retries && !good
      invariant i <= 1 && (good <==> i == 1)
      invariant good ==> 0 < retries && link.Ok? && OpenAll(disk.nodes, base + [link.value]) == Ok(f)
    {
      if link.Err? {
        return Fatal(UnboundCanonical);
      }
      var canonical := base + [link.value];
      var ft := ReadFileOf(disk.nodes, canonical + [FNAME_T]);
      if ft.Err? {
        return Fatal(OsFault(ft.error));
      }
      var fr := ReadFileOf(disk.nodes, canonical + [FNAME_R]);
      if fr.Err? {
        return Fatal(OsFault(fr.error));
      }
      var fstdout := ReadFileOf(disk.nodes, canonical + [FNAME_STDOUT]);
      if fstdout.Err? {
        return Fatal(OsFault(fstdout.error));
      }
      var fstderr := ReadFileOf(disk.nodes, canonical + [FNAME_STDERR]);
      if fstderr.Err? {
        return Fatal(OsFault(fstderr.error));
      }
      var freturncode := ReadFileOf(disk.nodes, canonical + [FNAME_RETURNCODE]);
      if freturncode.Err? {
        return Fatal(OsFault(freturncode.error));
      }
      f := Opened(ft.value, fr.value, fstdout.value, fstderr.value, freturncode.value);
      good := true;
      i := i + 1;
    }
    if !good {
      return Fatal(NoHandle);
    }
    l := ExamineEntry(f, maxage, now);
  }

  /** Following `current` to an entry that holds `f` gives the examination
      of `f`: with at least one try, the lookup is a hit exactly when `f` is
      fresh and well formed, and then returns its contents. */
  lemma LookupFollowsCurrent(nodes: Tree, root: Path, h: Digest, maxage: int, now: int, retries: int, f: Opened)
    requires IsTree(nodes) && retries > 0
    requires var current := Hash2Dir(root, h) + [CURRENT];
      && current in nodes && nodes[current].Symlink?
      && EntryHolds(nodes, Hash2Dir(root, h) + [nodes[current].target], f)
    ensures CachedRunshOf(nodes, root, h, maxage, now, retries) == ExamineEntry(f, maxage, now)
  {
    var base := Hash2Dir(root, h);
    var current := base + [CURRENT];
    assert Parent(current) == base;
    DirErrorNone(nodes, base);
    OpenAllHolds(nodes, base + [nodes[current].target], f);
  }

  /** Under a well-formed tree, the key's directory is usable exactly when
      resolving it does not run into a non-directory. */
  lemma UsableIff(nodes: Tree, base: Path)
    requires IsTree(nodes) && base != []
    ensures Usable(nodes, base) <==> DirError(nodes, base) != Some(ENOTDIR)
  {
    DirErrorNone(nodes, base);
    DirErrorKinds(nodes, base);
    DirErrorNone(nodes, Parent(base));
    assert Parent(base) in nodes ==> nodes[Parent(base)] == Dir || base !in nodes;
  }

  /** `CacheMiss` for want of an entry is raised exactly when `current` is
      absent from a key directory that exists or could be made. */
  lemma LookupMissIff(nodes: Tree, root: Path, h: Digest, maxage: int, now: int, retries: int)
    requires IsTree(nodes)
    ensures var base := Hash2Dir(root, h);
      CachedRunshOf(nodes, root, h, maxage, now, retries) == Miss(NoEntry) <==>
        Usable(nodes, base) && base + [CURRENT] !in nodes
  {
    var base := Hash2Dir(root, h);
    UsableIff(nodes, base);
    DirErrorNone(nodes, base);
    DirErrorKinds(nodes, base);
    assert Parent(base + [CURRENT]) == base;
    if base !in nodes {
      NoChildOfMissing(nodes, base, CURRENT);
    }
  }

  /** The lookup's other exceptions: with no retries allowed the open loop
      never runs; a `current` that is not a symbolic link leaves `canonical`
      unbound; a link to a missing entry fails its first open. */
  lemma LookupFaults(nodes: Tree, root: Path, h: Digest, maxage: int, now: int, retries: int)
    requires IsTree(nodes)
    ensures var l := CachedRunshOf(nodes, root, h, maxage, now, retries);
      retries <= 0 ==> l == Miss(NoEntry) || l == Fatal(NoHandle)
    ensures var base := Hash2Dir(root, h);
      var current := base + [CURRENT];
      retries > 0 && current in nodes && !nodes[current].Symlink? ==>
        CachedRunshOf(nodes, root, h, maxage, now, retries) == Fatal(UnboundCanonical)
    ensures var base := Hash2Dir(root, h);
      var current := base + [CURRENT];
      retries > 0 && current in nodes && nodes[current].Symlink? && base + [nodes[current].target] !in nodes ==>
        CachedRunshOf(nodes, root, h, maxage, now, retries) == Fatal(OsFault(ENOENT))
  {
    var base := Hash2Dir(root, h);
    var current := base + [CURRENT];
    assert Parent(current) == base;
    if current in nodes {
      assert base in nodes && nodes[base] == Dir;
      DirErrorNone(nodes, base);
      if nodes[current].Symlink? {
        var entry := base + [nodes[current].target];
        assert Parent(entry) == base;
        if entry !in nodes {
          NoChildOfMissing(nodes, entry, FNAME_T);
          assert Parent(entry + [FNAME_T]) == entry;
          DirErrorNone(nodes, entry);
          DirErrorKinds(nodes, entry);
        }
      }
    }
  }

  /** An entry as `_cache` wrote it at `now`, examined at `later`: a hit with
      the very output and status written, unless more than `maxage`
      seconds have passed. */
  lemma ExamineWritten(now: int, r: string, stdout: string, stderr: string, returncode: int,
                       maxage: int, later: int)
    ensures ExamineEntry(Contents(now, r, stdout, stderr, returncode), maxage, later) ==
      if later - now > maxage * MICROS then Miss(TooOld) else Hit(Completed(stdout, stderr, returncode))
  {
    Decimal.ParseFormatTimestamp(now);
    Decimal.ParseFormatInt(returncode);
  }

  /** A longer `maxage` never turns a hit into anything else, and a shorter
      one never turns a stale entry fresh. */
  lemma ExamineMonotone(f: Opened, maxage1: int, maxage2: int, now: int)
    requires maxage1 <= maxage2
    ensures ExamineEntry(f, maxage1, now).Hit? ==> ExamineEntry(f, maxage2, now) == ExamineEntry(f, maxage1, now)
    ensures ExamineEntry(f, maxage2, now) == Miss(TooOld) ==> ExamineEntry(f, maxage1, now) == Miss(TooOld)
  {
  }

  /** With the default `maxage` of -1 every entry stamped earlier than one
      second past the clock is too old, so the lookup never hits. */
  lemma DefaultMaxageMisses(f: Opened, now: int)
    requires Decimal.ParseTimestamp(f.t).Some? && Decimal.ParseTimestamp(f.t).value < now + MICROS
    ensures ExamineEntry(f, -1, now) == Miss(TooOld)
  {
  }

  /** What `_cache` stores, `_cached_runsh` finds: after a successful write
      at `now`, a lookup at `later` with at least one try returns the stored
      output and status, unless the entry has outlived `maxage`. */
  lemma CacheThenLookup(nodes: Tree, root: Path, h: Digest, r: string, t: int, stdout: string, stderr: string,
                        returncode: int, now: int, id: EntryId, maxage: int, later: int, retries: int)
    requires IsTree(nodes)
    ensures var c := CacheOf(nodes, root, h, r, t, stdout, stderr, returncode, now, id);
      c.error.None? && c.previous != Some(id) && retries > 0 ==>
        CachedRunshOf(c.nodes, root, h, maxage, later, retries) ==
          if later - now > maxage * MICROS then Miss(TooOld) else Hit(Completed(stdout, stderr, returncode))
  {
    var base := Hash2Dir(root, h);
    var c := CacheOf(nodes, root, h, r, t, stdout, stderr, returncode, now, id);
    if c.error.None? && c.previous != Some(id) && retries > 0 {
      CachePublishes(nodes, root, h, r, t, stdout, stderr, returncode, now, id);
      CacheWritesEntry(nodes, root, h, r, t, stdout, stderr, returncode, now, id);
      var entry := base + [id];
      assert Parent(entry) == base && Parent(base + [CURRENT]) == base;
      DirErrorNone(c.nodes, base);
      assert ReadLinkOf(c.nodes, base + [CURRENT]) == Ok(id);
      OpenAllHolds(c.nodes, entry, Contents(now, r, stdout, stderr, returncode));
      ExamineWritten(now, r, stdout, stderr, returncode, maxage, later);
    }
  }

  // ---------------------------------------------------------------------------
  // runsh

  /** The clock readings one `runsh` call takes: at the first lookup, when
      the command finished (the `t` handed to `_cache`), inside `_cache` for
      the `t` file, and at the second lookup. */
  datatype Clocks = Clocks(lookup: int, finished: int, written: int, reread: int)

  /** The tree after a `runsh` call, and what it returned or raised. */
  datatype Ran = Ran(nodes: Tree, result: Lookup)

  /** `runsh(sh, inputstr, maxage)`: a lookup; on `CacheMiss` the command
      runs (`execute` stands for `cli.runsh_t`), its result is cached, and a
      second lookup with `maxage` `sys.maxint` gives the answer.  Any other
      outcome of the first lookup, and any exception of `_cache` or of the
      second lookup, passes through. */
  function RunshOf(nodes: Tree, root: Path, sha1: string -> Digest,
                   execute: (Shell.Command, Option<string>) -> Completed,
                   sh: Shell.Command, input: Option<string>, maxage: int, clocks: Clocks, id: EntryId,
                   retries: int): Ran
  {
    var (h, r) := Hash(sha1, sh, input);
    var first := CachedRunshOf(nodes, root, h, maxage, clocks.lookup, retries);
    if !first.Miss? then Ran(nodes, first)
    else
      var done := execute(sh, input);
      var c := CacheOf(nodes, root, h, r, clocks.finished, done.stdout, done.stderr, done.returncode, clocks.written, id);
      if c.error.Some? then Ran(c.nodes, Fatal(OsFault(c.error.value)))
      else Ran(c.nodes, CachedRunshOf(c.nodes, root, h, MAXINT, clocks.reread, retries))
  }

  /** `runsh` as the process runs it on the disk. */
  method Runsh(disk: Disk, root: Path, sha1: string -> Digest,
               execute: (Shell.Command, Option<string>) -> Completed,
               sh: Shell.Command, input: Option<string>, maxage: int, clocks: Clocks, id: EntryId,
               retries: int) returns (l: Lookup)
    requires disk.Valid()
    modifies disk
    ensures disk.Valid()
    ensures var ran := RunshOf(old(disk.nodes), root, sha1, execute, sh, input, maxage, clocks, id, retries);
      disk.nodes == ran.nodes && l == ran.result
  {
    var (h, r) := Hash(sha1, sh, input);
    l := CachedRunsh(disk, root, h, maxage, clocks.lookup, retries);
    if !l.Miss? {
      return;
    }
    var done := execute(sh, input);
    var err := Cache(disk, root, h, r, clocks.finished, done.stdout, done.stderr, done.returncode, clocks.written, id);
    if err.Some? {
      return Fatal(OsFault(err.value));
    }
    l := CachedRunsh(disk, root, h, MAXINT, clocks.reread, retries);
  }

  /** A cached answer is returned without running anything: the result and
      the tree are the same whatever the command would have produced. */
  lemma RunshHitSkipsExecute(nodes: Tree, root: Path, sha1: string -> Digest,
                             execute1: (Shell.Command, Option<string>) -> Completed,
                             execute2: (Shell.Command, Option<string>) -> Completed,
                             sh: Shell.Command, input: Option<string>, maxage: int, clocks: Clocks, id: EntryId,
                             retries: int)
    requires CachedRunshOf(nodes, root, Hash(sha1, sh, input).0, maxage, clocks.lookup, retries).Hit?
    ensures RunshOf(nodes, root, sha1, execute1, sh, input, maxage, clocks, id, retries) ==
            RunshOf(nodes, root, sha1, execute2, sh, input, maxage, clocks, id, retries)
    ensures RunshOf(nodes, root, sha1, execute1, sh, input, maxage, clocks, id, retries).nodes == nodes
  {
  }

  /** On a miss, `runsh` returns what the command produced, provided the
      entry can be stored: the key's directory is usable, the new entry's
      and temporary link's names are free, `current` is absent or a link to
      another entry, and the open loop may run. */
  lemma RunshMissExecutes(nodes: Tree, root: Path, sha1: string -> Digest,
                          execute: (Shell.Command, Option<string>) -> Completed,
                          sh: Shell.Command, input: Option<string>, maxage: int, clocks: Clocks, id: EntryId,
                          retries: int)
    requires IsTree(nodes) && retries > 0
    requires clocks.reread - clocks.written <= MAXINT * MICROS
    requires var base := Hash2Dir(root, Hash(sha1, sh, input).0);
      && CachedRunshOf(nodes, root, Hash(sha1, sh, input).0, maxage, clocks.lookup, retries).Miss?
      && Usable(nodes, base) && base + [id] !in nodes && base + [TmpLink(id)] !in nodes
      && (base + [CURRENT] in nodes ==> nodes[base + [CURRENT]].Symlink? && nodes[base + [CURRENT]] != Symlink(id))
    ensures RunshOf(nodes, root, sha1, execute, sh, input, maxage, clocks, id, retries).result ==
      Hit(execute(sh, input))
  {
    var (h, r) := Hash(sha1, sh, input);
    var done := execute(sh, input);
    CacheFailsIff(nodes, root, h, r, clocks.finished, done.stdout, done.stderr, done.returncode, clocks.written, id);
    CachePublishes(nodes, root, h, r, clocks.finished, done.stdout, done.stderr, done.returncode, clocks.written, id);
    CacheThenLookup(nodes, root, h, r, clocks.finished, done.stdout, done.stderr, done.returncode, clocks.written, id,
                    MAXINT, clocks.reread, retries);
  }

  /** After a miss has been filled, the next `runsh` of the same command
      within `maxage` seconds of the write is a hit with the same answer,
      leaves the tree as it was, and runs nothing. */
  lemma RunshThenHit(nodes: Tree, root: Path, sha1: string -> Digest,
                     execute: (Shell.Command, Option<string>) -> Completed,
                     execute2: (Shell.Command, Option<string>) -> Completed,
                     sh: Shell.Command, input: Option<string>, maxage: int, clocks: Clocks, id: EntryId,
                     clocks2: Clocks, id2: EntryId, retries: int)
    requires IsTree(nodes) && retries > 0
    requires var base := Hash2Dir(root, Hash(sha1, sh, input).0);
      && CachedRunshOf(nodes, root, Hash(sha1, sh, input).0, maxage, clocks.lookup, retries).Miss?
      && Usable(nodes, base) && base + [id] !in nodes && base + [TmpLink(id)] !in nodes
      && (base + [CURRENT] in nodes ==> nodes[base + [CURRENT]].Symlink? && nodes[base + [CURRENT]] != Symlink(id))
    requires clocks2.lookup - clocks.written <= maxage * MICROS
    ensures var first := RunshOf(nodes, root, sha1, execute, sh, input, maxage, clocks, id, retries);
      RunshOf(first.nodes, root, sha1, execute2, sh, input, maxage, clocks2, id2, retries) ==
        Ran(first.nodes, Hit(execute(sh, input)))
  {
    var (h, r) := Hash(sha1, sh, input);
    var done := execute(sh, input);
    CacheFailsIff(nodes, root, h, r, clocks.finished, done.stdout, done.stderr, done.returncode, clocks.written, id);
    CachePublishes(nodes, root, h, r, clocks.finished, done.stdout, done.stderr, done.returncode, clocks.written, id);
    CacheThenLookup(nodes, root, h, r, clocks.finished, done.stdout, done.stderr, done.returncode, clocks.written, id,
                    maxage, clocks2.lookup, retries);
  }
}
