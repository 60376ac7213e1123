/** Trace file names (src/pytest_memray/plugin.py, `_build_bin_path` and
    the `.metadata` record name). A session that owns a temporary directory
    names each trace by a fresh random token; otherwise the name is derived
    from the session prefix and the test's node id, and reruns replace the
    previous file. */
module TraceNaming {
  import opened Text

  /** The node id with "::" and then the path separator replaced by "-". */
  function NodeIdPart(nodeid: string, sep: char): string {
    Replace(Replace(nodeid, "::", "-"), [sep], "-")
  }

  /** The file name `_build_bin_path` picks; `token` stands for
      `uuid.uuid4().hex`, drawn afresh at each call. */
  function BinName(ownsTmpDir: bool, prefix: string, token: string, nodeid: string, sep: char): string {
    if ownsTmpDir then token + ".bin"
    else prefix + "-" + NodeIdPart(nodeid, sep) + ".bin"
  }

  /** `_build_bin_path` on a directory holding the file names `files`: the
      name, and the directory after a stale file of that name was unlinked
      (only in the deterministic mode). */
  function BuildBinPath(ownsTmpDir: bool, prefix: string, token: string, nodeid: string, sep: char,
                        files: set<string>): (r: (string, set<string>))
    ensures r.0 == BinName(ownsTmpDir, prefix, token, nodeid, sep)
    ensures ownsTmpDir ==> r.1 == files
    ensures !ownsTmpDir ==> r.0 !in r.1 && r.1 + {r.0} == files + {r.0}
  {
    var name := BinName(ownsTmpDir, prefix, token, nodeid, sep);
    if !ownsTmpDir && name in files then (name, files - {name}) else (name, files)
  }

  /** Index of the last '.' in `name`, or -1. */
  function LastDot(name: string): (i: int)
    ensures -1 <= i < |name|
    ensures i >= 0 ==> name[i] == '.'
    ensures forall j :: i < j < |name| ==> name[j] != '.'
  {
    if |name| == 0 then -1
    else if name[|name| - 1] == '.' then |name| - 1
    else LastDot(name[..|name| - 1])
  }

  /** `PurePath.suffix`: from the last dot, unless the dot opens the name or
      ends it. A non-empty suffix is an ending of the name that is a dot
      followed by at least one character and no further dot; it is empty
      when no dot lies strictly inside the name or the name ends in one. */
  function Suffix(name: string): (r: string)
    ensures |r| <= |name| && r == name[|name| - |r|..]
    ensures r != "" ==> 2 <= |r| < |name| && r[0] == '.' && forall j :: 1 <= j < |r| ==> r[j] != '.'
    ensures r == "" ==> (forall i :: 0 < i < |name| - 1 ==> name[i] != '.') || name[|name| - 1] == '.'
  {
    var i := LastDot(name);
    if 0 < i < |name| - 1 then name[i..] else ""
  }

  /** `PurePath(name).with_suffix(suffix).name`: the name without its
      suffix, then `suffix`. */
  function WithSuffix(name: string, suffix: string): (r: string)
    ensures exists stem :: name == stem + Suffix(name) && r == stem + suffix
  {
    var current := Suffix(name);
    var stem := name[..|name| - |current|];
    assert name == stem + current;
    stem + suffix
  }

  /** The name of the pickled result record written next to a trace. */
  function MetadataName(binName: string): string {
    WithSuffix(binName, ".metadata")
  }

  /** The replaced id contains no "::" and no path separator. */
  lemma NodeIdPartClean(nodeid: string, sep: char)
    requires sep != '-'
    ensures !Contains(NodeIdPart(nodeid, sep), "::")
    ensures sep !in NodeIdPart(nodeid, sep)
  {
    var once := Replace(nodeid, "::", "-");
    var id := NodeIdPart(nodeid, sep);
    NoColonPairLeft(nodeid);
    ReplaceChar(once, sep, '-');
    assert |id| == |once|;
    assert !Contains(id, "::") by {
      forall i | OccursAt(id, "::", i) ensures OccursAt(once, "::", i) {
        assert id[i..i + 2][0] == ':' && id[i..i + 2][1] == ':';
        assert once[i..i + 2] == "::";
      }
    }
  }

  /** After replacing "::" by "-", no "::" is left. */
  lemma {:induction false} NoColonPairLeft(s: string)
    ensures !Contains(Replace(s, "::", "-"), "::")
    decreases |s|
  {
    if |s| >= 2 {
      if s[..2] == "::" {
        NoColonPairLeft(s[2..]);
        NoPairAfter('-', Replace(s[2..], "::", "-"));
      } else {
        NoColonPairLeft(s[1..]);
        FirstOfReplaced(s[1..]);
        NoPairAfter(s[0], Replace(s[1..], "::", "-"));
      }
    }
  }

  /** One character in front of a string free of "::" creates no "::"
      unless it is a ':' meeting a leading ':'. */
  lemma NoPairAfter(c: char, t: string)
    requires !Contains(t, "::")
    requires c == ':' ==> |t| == 0 || t[0] != ':'
    ensures !Contains([c] + t, "::")
  {
    var r := [c] + t;
    forall i | 0 <= i <= |r| ensures !OccursAt(r, "::", i) {
      if i >= 1 && i + 2 <= |r| {
        assert r[i..i + 2] == t[i - 1..i + 1];
        assert !OccursAt(t, "::", i - 1);
      } else if i == 0 && 2 <= |r| {
        assert r[0..2][0] == c && r[0..2][1] == t[0];
      }
    }
  }

  /** The replaced string starts with ':' only if the original starts with a
      lone ':' that is not part of "::". */
  lemma FirstOfReplaced(s: string)
    ensures |Replace(s, "::", "-")| > 0 && Replace(s, "::", "-")[0] == ':' ==>
      |s| > 0 && s[0] == ':' && !(|s| >= 2 && s[1] == ':')
  {
    if |s| >= 2 && s[..2] == "::" {
      assert Replace(s, "::", "-")[0] == '-';
    }
  }

  /** A stretch free of the pattern's first character is copied unchanged. */
  lemma {:induction false} ReplaceAfterPlain(a: string, b: string, pat: string, rep: string)
    requires |pat| > 0 && pat[0] !in a
    ensures Replace(a + b, pat, rep) == a + Replace(b, pat, rep)
    decreases |a|
  {
    if |a| > 0 {
      var ab := a + b;
      assert ab[0] == a[0] != pat[0];
      assert ab[1..] == a[1..] + b;
      ReplaceAfterPlain(a[1..], b, pat, rep);
      if |ab| >= |pat| {
        assert ab[..|pat|][0] != pat[0];
        calc {
          Replace(ab, pat, rep);
          [a[0]] + Replace(a[1..] + b, pat, rep);
          [a[0]] + (a[1..] + Replace(b, pat, rep));
          { assert [a[0]] + a[1..] == a; }
          a + Replace(b, pat, rep);
        }
      } else {
        assert Replace(b, pat, rep) == b;
      }
    } else {
      assert a + b == b;
    }
  }

  /** A string without the pattern's first character does not contain it. */
  lemma AbsentChar(s: string, pat: string)
    requires |pat| > 0 && pat[0] !in s
    ensures !Contains(s, pat)
  {
    forall i | 0 <= i && i + |pat| <= |s| ensures !OccursAt(s, pat, i) {
      assert s[i..i + |pat|][0] == s[i];
    }
  }

  /** A node id without ':' and without separators is used unchanged. */
  lemma PlainNodeIdUnchanged(nodeid: string, sep: char)
    requires ':' !in nodeid && sep !in nodeid
    ensures NodeIdPart(nodeid, sep) == nodeid
  {
    AbsentChar(nodeid, "::");
    ReplaceAbsent(nodeid, "::", "-");
    AbsentChar(nodeid, [sep]);
    ReplaceAbsent(nodeid, [sep], "-");
  }

  /** In the deterministic mode the name is `<prefix>-<id>.bin` with a clean id. */
  lemma DeterministicName(prefix: string, token: string, nodeid: string, sep: char)
    requires sep != '-'
    ensures exists id :: (BinName(false, prefix, token, nodeid, sep) == prefix + "-" + id + ".bin"
      && !Contains(id, "::") && sep !in id)
  {
    NodeIdPartClean(nodeid, sep);
  }

  /** `with_suffix(".metadata")` swaps the ".bin" ending for ".metadata". */
  lemma MetadataOfBin(stem: string)
    requires |stem| > 0
    ensures MetadataName(stem + ".bin") == stem + ".metadata"
  {
    var name := stem + ".bin";
    assert name[|stem|] == '.';
    assert LastDot(name) == |stem| by {
      var j := LastDot(name);
      assert forall j :: |stem| < j < |name| ==> name[j] == ".bin"[j - |stem|];
    }
    assert Suffix(name) == ".bin";
    assert name[..|name| - 4] == stem;
  }

  /** The trace and its metadata record share their stem, in both modes. */
  lemma MetadataSharesStem(ownsTmpDir: bool, prefix: string, token: string, nodeid: string, sep: char)
    requires |token| > 0
    ensures var stem := if ownsTmpDir then token else prefix + "-" + NodeIdPart(nodeid, sep);
      && BinName(ownsTmpDir, prefix, token, nodeid, sep) == stem + ".bin"
      && MetadataName(BinName(ownsTmpDir, prefix, token, nodeid, sep)) == stem + ".metadata"
  {
    var stem := if ownsTmpDir then token else prefix + "-" + NodeIdPart(nodeid, sep);
    assert BinName(ownsTmpDir, prefix, token, nodeid, sep) == stem + ".bin";
    MetadataOfBin(stem);
  }

  /** A leading occurrence of the pattern is replaced. */
  lemma ReplaceHead(pat: string, rest: string, rep: string)
    requires |pat| > 0
    ensures Replace(pat + rest, pat, rep) == rep + Replace(rest, pat, rep)
  {
    var s := pat + rest;
    assert s[..|pat|] == pat && s[|pat|..] == rest;
  }

  /** The one "::" between a file part and a test name becomes "-". */
  lemma ColonsToDash(head: string, test: string)
    requires ':' !in head && ':' !in test
    ensures Replace(head + ("::" + test), "::", "-") == head + ("-" + test)
  {
    ReplaceAfterPlain(head, "::" + test, "::", "-");
    ReplaceHead("::", test, "-");
    AbsentChar(test, "::");
    ReplaceAbsent(test, "::", "-");
  }

  /** The one separator between a directory and the rest becomes "-". */
  lemma SeparatorToDash(dir: string, rest: string, sep: char)
    requires sep !in dir && sep !in rest
    ensures Replace(dir + ([sep] + rest), [sep], "-") == dir + ("-" + rest)
  {
    ReplaceAfterPlain(dir, [sep] + rest, [sep], "-");
    ReplaceHead([sep], rest, "-");
    AbsentChar(rest, [sep]);
    ReplaceAbsent(rest, [sep], "-");
  }

  /** The node id of test `test` in file `file` under directory `dir`,
      `dir/file::test`, becomes `dir-file-test`; so `magic/test_a.py::test_b[2]`
      under prefix `H` is traced to `H-magic-test_a.py-test_b[2].bin`. */
  lemma NodeIdOfNestedTest(prefix: string, token: string, dir: string, file: string, test: string, sep: char)
    requires sep != ':' && sep != '-'
    requires ':' !in dir && ':' !in file && ':' !in test
    requires sep !in dir && sep !in file && sep !in test
    ensures NodeIdPart(dir + [sep] + file + "::" + test, sep) == dir + "-" + file + "-" + test
    ensures BinName(false, prefix, token, dir + [sep] + file + "::" + test, sep)
         == prefix + "-" + dir + "-" + file + "-" + test + ".bin"
  {
    var nodeid := dir + [sep] + file + "::" + test;
    var head := dir + [sep] + file;
    assert ':' !in head;
    assert nodeid == head + ("::" + test);
    ColonsToDash(head, test);
    var rest := file + ("-" + test);
    assert sep !in rest;
    assert head + ("-" + test) == dir + ([sep] + rest);
    SeparatorToDash(dir, rest, sep);
    var id := dir + "-" + file + "-" + test;
    assert dir + ("-" + rest) == id;
    assert NodeIdPart(nodeid, sep) == id;
    assert prefix + "-" + id + ".bin" == prefix + "-" + dir + "-" + file + "-" + test + ".bin";
  }
}
