/** The command line of hls-tui/cmd.go: how the input name is turned into a
    script name and a probe file, how the argument vector is split into the
    filename and the flag tokens, the two error exits, and the arguments
    handed to the encoding script. Paths are Unix paths (`/` is the only
    separator). */
module Cli {
  import opened Text
  import opened Wrappers
  import opened Tui

  // ---------------------------------------------------------------------
  // Path helpers: filepath.Base and filepath.Ext
  // ---------------------------------------------------------------------

  /** `s` without its run of trailing slashes. */
  function TrimTrailingSlashes(s: string): (r: string)
    ensures HasPrefix(s, r)
    ensures r == [] || r[|r| - 1] != '/'
  {
    if s != [] && s[|s| - 1] == '/' then TrimTrailingSlashes(s[..|s| - 1]) else s
  }

  /** Only slashes are trimmed. */
  lemma {:induction false} TrimTrailingSlashesRemoves(s: string)
    ensures forall k :: |TrimTrailingSlashes(s)| <= k < |s| ==> s[k] == '/'
  {
    if s != [] && s[|s| - 1] == '/' {
      TrimTrailingSlashesRemoves(s[..|s| - 1]);
    }
  }

  /** The part of `s` after its last slash (all of `s` when it has none). */
  function AfterLastSlash(s: string): string
  {
    if s == [] || s[|s| - 1] == '/' then []
    else AfterLastSlash(s[..|s| - 1]) + [s[|s| - 1]]
  }

  /** AfterLastSlash is a slash-free suffix that starts right after a slash
      or at the start. */
  lemma {:induction false} AfterLastSlashFacts(s: string)
    ensures var r := AfterLastSlash(s);
      HasSuffix(s, r) && !Contains(r, '/') && (|r| < |s| ==> s[|s| - |r| - 1] == '/')
  {
    if s != [] && s[|s| - 1] != '/' {
      var u := s[..|s| - 1];
      AfterLastSlashFacts(u);
      var r := AfterLastSlash(u);
      assert AfterLastSlash(s) == r + [s[|s| - 1]];
      assert s[|s| - |r| - 1..] == u[|u| - |r|..] + [s[|s| - 1]];
      assert forall k :: 0 <= k < |r| ==> (r + [s[|s| - 1]])[k] == r[k];
    }
  }

  /** filepath.Base: the last element of the path, "." for the empty path
      and "/" for a path made only of slashes. */
  function Base(path: string): (b: string)
    ensures b != ""
    ensures b == "/" || !Contains(b, '/')
    ensures path == "" ==> b == "."
    ensures path != "" && TrimTrailingSlashes(path) == "" ==> b == "/"
    ensures var t := TrimTrailingSlashes(path);
      t != "" ==> HasSuffix(t, b) && (|b| < |t| ==> t[|t| - |b| - 1] == '/')
  {
    if path == "" then "."
    else
      var t := TrimTrailingSlashes(path);
      if t == "" then "/" else AfterLastSlashFacts(t); AfterLastSlash(t)
  }

  /** filepath.Ext: the suffix from the last dot of the last element, or ""
      when that element has no dot. */
  function Ext(path: string): (e: string)
    ensures HasSuffix(path, e)
    ensures e == "" || e[0] == '.'
  {
    if path == [] || path[|path| - 1] == '/' then ""
    else if path[|path| - 1] == '.' then "."
    else
      var e := Ext(path[..|path| - 1]);
      if e == "" then "" else e + [path[|path| - 1]]
  }

  /** After its leading dot the extension has no dot and no slash. */
  lemma {:induction false} ExtAfterLastDot(path: string)
    ensures forall k :: 1 <= k < |Ext(path)| ==> Ext(path)[k] != '.' && Ext(path)[k] != '/'
  {
    if path != [] && path[|path| - 1] != '/' && path[|path| - 1] != '.' {
      ExtAfterLastDot(path[..|path| - 1]);
    }
  }

  /** strings.TrimSuffix. */
  function TrimSuffix(s: string, suffix: string): (r: string)
    ensures HasSuffix(s, suffix) ==> r + suffix == s
    ensures !HasSuffix(s, suffix) ==> r == s
  {
    if HasSuffix(s, suffix) then s[..|s| - |suffix|] else s
  }

  // ---------------------------------------------------------------------
  // normalizeFilename
  // ---------------------------------------------------------------------

  predicate IsVideoExt(e: string) {
    e == ".mp4" || e == ".mov" || e == ".m4v"
  }

  /** normalizeFilename: the name the scripts are given (the last path
      element, less a video extension) and the file to probe (the last path
      element itself exactly when its extension is a video one, otherwise
      with ".mp4" appended). */
  function NormalizeFilename(arg: string): (r: (string, string))
    ensures HasPrefix(Base(arg), r.0)
    ensures r.1 == Base(arg) <==> IsVideoExt(Lower(Ext(Base(arg))))
    ensures r.1 != Base(arg) ==> r.1 == Base(arg) + ".mp4"
  {
    var base := Base(arg);
    var ext := Lower(Ext(base));
    if IsVideoExt(ext) then
      TrimSuffixIsPrefix(base, ext);
      (TrimSuffix(base, ext), base)
    else
      assert |base + ".mp4"| != |base|;
      (base, base + ".mp4")
  }

  /** What TrimSuffix leaves is a prefix of its input. */
  lemma TrimSuffixIsPrefix(s: string, suffix: string)
    ensures HasPrefix(s, TrimSuffix(s, suffix))
  {
    var r := TrimSuffix(s, suffix);
    assert s[..|r|] == r;
  }

  /** A lower-case .mp4, .mov or .m4v extension is cut off the name, and the
      probe is the file itself. */
  lemma NormalizeVideoExtension(arg: string)
    requires IsVideoExt(Ext(Base(arg)))
    ensures var base, e := Base(arg), Ext(Base(arg));
      NormalizeFilename(arg) == (base[..|base| - |e|], base) &&
      NormalizeFilename(arg).0 + e == base
  {
    var base := Base(arg);
    var e := Ext(base);
    LowerVideoExt(e);
    assert NormalizeFilename(arg) == (TrimSuffix(base, e), base);
  }

  /** The video extensions are written in lower case. */
  lemma LowerVideoExt(e: string)
    requires IsVideoExt(e)
    ensures Lower(e) == e
  {
    assert |Lower(e)| == 4;
    assert Lower(e)[0] == e[0] && Lower(e)[1] == e[1] && Lower(e)[2] == e[2] && Lower(e)[3] == e[3];
  }

  /** A video extension written with upper-case letters is recognised, but
      the cut uses the lower-case spelling, which is not a suffix: the name
      keeps its extension. */
  lemma NormalizeUpperCaseExtension(arg: string)
    requires IsVideoExt(Lower(Ext(Base(arg))))
    requires Lower(Ext(Base(arg))) != Ext(Base(arg))
    ensures NormalizeFilename(arg) == (Base(arg), Base(arg))
  {
    var base, e := Base(arg), Ext(Base(arg));
    assert base[|base| - |e|..] == e;
  }

  /** Any other extension, or none, is kept in the name and the probe gets
      `.mp4` appended. */
  lemma NormalizeOtherExtension(arg: string)
    requires !IsVideoExt(Lower(Ext(Base(arg))))
    ensures NormalizeFilename(arg) == (Base(arg), Base(arg) + ".mp4")
  {
  }

  /** Appending slash-free text extends the last element. */
  lemma {:induction false} AfterLastSlashAppend(s: string, t: string)
    requires !Contains(t, '/')
    ensures AfterLastSlash(s + t) == AfterLastSlash(s) + t
    decreases |t|
  {
    if t == [] {
      assert s + t == s;
    } else {
      var w, u, c := s + t, t[..|t| - 1], t[|t| - 1];
      assert c != '/';
      assert !Contains(u, '/') by {
        forall k | 0 <= k < |u|
          ensures u[k] != '/'
        {
          assert u[k] == t[k];
        }
      }
      assert w[..|w| - 1] == s + u;
      assert w[|w| - 1] == c;
      assert AfterLastSlash(w) == AfterLastSlash(s + u) + [c];
      AfterLastSlashAppend(s, u);
      assert t == u + [c];
    }
  }

  /** The extension of a name that ends in a dot and a dot- and slash-free
      suffix is that dot and suffix. */
  lemma {:induction false} ExtAfterDot(s: string, t: string)
    requires !Contains(t, '.') && !Contains(t, '/')
    ensures Ext(s + "." + t) == "." + t
    decreases |t|
  {
    if t == [] {
      assert s + "." + t == s + ".";
    } else {
      var u := t[..|t| - 1];
      var w := s + "." + t;
      assert w[..|w| - 1] == s + "." + u;
      assert w[|w| - 1] == t[|t| - 1];
      ExtAfterDot(s, u);
      assert "." + t == "." + u + [t[|t| - 1]];
    }
  }

  /** A name without dots and slashes has no extension. */
  lemma {:induction false} ExtNone(t: string)
    requires !Contains(t, '.') && !Contains(t, '/')
    ensures Ext(t) == ""
    decreases |t|
  {
    if t != [] {
      ExtNone(t[..|t| - 1]);
    }
  }

  /** A path's last element with a lower-case extension. */
  lemma NormalizePathExample()
    ensures NormalizeFilename("/videos/talk.mp4") == ("talk", "talk.mp4")
  {
    BaseExample();
    ExtExample();
    NormalizeVideoExtension("/videos/talk.mp4");
    assert "talk.mp4"[..4] == "talk";
  }

  lemma BaseExample()
    ensures Base("/videos/talk.mp4") == "talk.mp4"
  {
    var p := "/videos/talk.mp4";
    assert TrimTrailingSlashes(p) == p;
    assert p == "/videos/" + "talk.mp4";
    assert AfterLastSlash("/videos/") == [];
    assert !Contains("talk.mp4", '/');
    AfterLastSlashAppend("/videos/", "talk.mp4");
  }

  lemma ExtExample()
    ensures Ext("talk.mp4") == ".mp4"
  {
    assert "talk.mp4" == "talk" + "." + "mp4";
    assert !Contains("mp4", '.') && !Contains("mp4", '/');
    ExtAfterDot("talk", "mp4");
  }

  /** `clip.MP4` keeps its name: the cut looks for `.mp4`. */
  lemma NormalizeUpperCaseExample()
    ensures NormalizeFilename("clip.MP4") == ("clip.MP4", "clip.MP4")
  {
    UpperExtExample();
    assert Lower(".MP4") == ".mp4";
    NormalizeUpperCaseExtension("clip.MP4");
  }

  lemma UpperExtExample()
    ensures Base("clip.MP4") == "clip.MP4" && Ext("clip.MP4") == ".MP4"
  {
    UpperBaseExample();
    assert "clip.MP4" == "clip" + "." + "MP4";
    assert !Contains("MP4", '.') && !Contains("MP4", '/');
    ExtAfterDot("clip", "MP4");
  }

  lemma UpperBaseExample()
    ensures Base("clip.MP4") == "clip.MP4"
  {
    var b := "clip.MP4";
    assert !Contains(b, '/');
    BasePlain(b);
  }

  /** A non-empty name without slashes is its own last element. */
  lemma BasePlain(b: string)
    requires b != "" && !Contains(b, '/')
    ensures Base(b) == b
  {
    assert b[|b| - 1] != '/';
    assert TrimTrailingSlashes(b) == b;
    AfterLastSlashAppend([], b);
    assert [] + b == b;
  }

  /** A bare name is probed with `.mp4` appended. */
  lemma NormalizePlainExample()
    ensures NormalizeFilename("movie") == ("movie", "movie.mp4")
  {
    var b := "movie";
    assert !Contains(b, '/') && !Contains(b, '.');
    BasePlain(b);
    ExtNone(b);
    assert Lower("") == "";
    NormalizeOtherExtension(b);
    assert b + ".mp4" == "movie.mp4";
  }

  // ---------------------------------------------------------------------
  // The argv partition loop
  // ---------------------------------------------------------------------

  /** The flags that take the next token as their value. */
  predicate IsValueFlag(a: string) {
    a == "-q" || a == "-r"
  }

  /** Whether token j is consumed as the value of the token before it: the
      token before is a bare `-q` or `-r` that is not itself a value. Only
      meaningful up to the filename, after which no flag takes a value. */
  predicate ValueSlot(argv: seq<string>, j: nat)
    requires j <= |argv|
    decreases j
  {
    j > 0 && IsValueFlag(argv[j - 1]) && !ValueSlot(argv, j - 1)
  }

  /** Whether token j, reached before any filename, becomes the filename. */
  predicate IsFilenameAt(argv: seq<string>, j: nat)
    requires j < |argv|
  {
    argv[j] != "" && !HasPrefix(argv[j], "-") && !ValueSlot(argv, j)
  }

  /** The first filename position at or after `from`. */
  function FindFilename(argv: seq<string>, from: nat): (r: Option<nat>)
    ensures r.Some? ==> from <= r.value < |argv|
    decreases |argv| - from
  {
    if from >= |argv| then None
    else if IsFilenameAt(argv, from) then Some(from)
    else FindFilename(argv, from + 1)
  }

  /** FindFilename finds the least filename position, and None means there
      is none. */
  lemma {:induction false} FindFilenameFacts(argv: seq<string>, from: nat)
    ensures FindFilename(argv, from).Some? ==> IsFilenameAt(argv, FindFilename(argv, from).value)
    ensures FindFilename(argv, from).Some? ==>
      forall k :: from <= k < FindFilename(argv, from).value ==> !IsFilenameAt(argv, k)
    ensures FindFilename(argv, from).None? ==>
      forall k :: from <= k < |argv| ==> !IsFilenameAt(argv, k)
    decreases |argv| - from
  {
    if from < |argv| && !IsFilenameAt(argv, from) {
      FindFilenameFacts(argv, from + 1);
    }
  }

  /** The tokens among the first `n` that the loop keeps as flag tokens before
      a filename is found: all but the empty tokens that are not a value. */
  function Kept(argv: seq<string>, n: nat): seq<string>
    requires n <= |argv|
  {
    if n == 0 then []
    else Kept(argv, n - 1) + (if argv[n - 1] != "" || ValueSlot(argv, n - 1) then [argv[n - 1]] else [])
  }

  /** The filename token ("" when there is none) and the flag tokens. A
      filename is one of the tokens and does not start with "-". */
  function Partition(argv: seq<string>): (r: (string, seq<string>))
    ensures r.0 == "" || (r.0 in argv && !HasPrefix(r.0, "-"))
  {
    FindFilenameFacts(argv, 0);
    match FindFilename(argv, 0)
    case Some(f) => (argv[f], Kept(argv, f) + argv[f + 1..])
    case None => ("", Kept(argv, |argv|))
  }

  /** The loop of main over os.Args[1:]: flags before the filename (with the
      value of a bare -q or -r), the first other token as the filename, and
      every later token as a flag token, in order. */
  method PartitionArgs(argv: seq<string>) returns (filenameToken: string, flagTokens: seq<string>)
    ensures (filenameToken, flagTokens) == Partition(argv)
  {
    filenameToken := "";
    flagTokens := [];
    var expectValue := "";
    ghost var fi: nat := 0;
    var i := 0;
    while i < |argv|
      invariant 0 <= i <= |argv|
      invariant filenameToken == "" ==>
        (forall k :: 0 <= k < i ==> !IsFilenameAt(argv, k)) &&
        flagTokens == Kept(argv, i) &&
        (expectValue != "" <==> ValueSlot(argv, i))
      invariant filenameToken != "" ==>
        fi < i && filenameToken == argv[fi] && IsFilenameAt(argv, fi) &&
        (forall k :: 0 <= k < fi ==> !IsFilenameAt(argv, k)) &&
        flagTokens == Kept(argv, fi) + argv[fi + 1..i] &&
        expectValue == ""
    {
      var a := argv[i];
      if expectValue != "" {
        flagTokens := flagTokens + [a];
        expectValue := "";
      } else if HasPrefix(a, "-") && filenameToken == "" {
        flagTokens := flagTokens + [a];
        if !Contains(a, '=') {
          if IsValueFlag(a) {
            expectValue := a;
          }
        }
      } else if filenameToken == "" {
        filenameToken := a;
        if a != "" {
          fi := i;
        }
      } else {
        assert argv[fi + 1..i + 1] == argv[fi + 1..i] + [a];
        flagTokens := flagTokens + [a];
      }
      i := i + 1;
    }
    if filenameToken == "" {
      FindFilenameNone(argv, 0);
      PartitionWithout(argv);
    } else {
      FindFilenameAt(argv, 0, fi);
      PartitionWith(argv, fi);
      assert argv[fi + 1..i] == argv[fi + 1..];
    }
  }

  lemma PartitionWithout(argv: seq<string>)
    requires FindFilename(argv, 0).None?
    ensures Partition(argv) == ("", Kept(argv, |argv|))
  {
  }

  lemma PartitionWith(argv: seq<string>, f: nat)
    requires FindFilename(argv, 0) == Some(f)
    ensures f < |argv| && Partition(argv) == (argv[f], Kept(argv, f) + argv[f + 1..])
  {
  }

  lemma {:induction false} FindFilenameNone(argv: seq<string>, from: nat)
    requires forall k :: from <= k < |argv| ==> !IsFilenameAt(argv, k)
    ensures FindFilename(argv, from) == None
    decreases |argv| - from
  {
    if from < |argv| {
      FindFilenameNone(argv, from + 1);
    }
  }

  lemma {:induction false} FindFilenameAt(argv: seq<string>, from: nat, f: nat)
    requires from <= f < |argv| && IsFilenameAt(argv, f)
    requires forall k :: from <= k < f ==> !IsFilenameAt(argv, k)
    ensures FindFilename(argv, from) == Some(f)
    decreases f - from
  {
    if from < f {
      FindFilenameAt(argv, from + 1, f);
    }
  }

  /** Without empty tokens the loop keeps every token before the filename. */
  lemma {:induction false} KeptAll(argv: seq<string>, n: nat)
    requires n <= |argv|
    requires forall k :: 0 <= k < n ==> argv[k] != ""
    ensures Kept(argv, n) == argv[..n]
  {
    if n > 0 {
      KeptAll(argv, n - 1);
      assert argv[..n] == argv[..n - 1] + [argv[n - 1]];
    }
  }

  /** When no token is empty, the flag tokens are argv without the filename,
      in their original order, and without a filename they are all of argv. */
  lemma PartitionKeepsOrder(argv: seq<string>)
    requires forall k :: 0 <= k < |argv| ==> argv[k] != ""
    ensures FindFilename(argv, 0).None? ==> Partition(argv) == ("", argv)
    ensures FindFilename(argv, 0).Some? ==>
      var f, fn, fl := FindFilename(argv, 0).value, Partition(argv).0, Partition(argv).1;
      fn == argv[f] && fl == argv[..f] + argv[f + 1..] && fl[..f] + [fn] + fl[f..] == argv
  {
    if FindFilename(argv, 0).None? {
      KeptAll(argv, |argv|);
      assert argv[..|argv|] == argv;
    } else {
      var f := FindFilename(argv, 0).value;
      KeptAll(argv, f);
      SplitAround(argv, f);
    }
  }

  /** Taking out element f and putting it back. */
  lemma SplitAround(s: seq<string>, f: nat)
    requires f < |s|
    ensures var t := s[..f] + s[f + 1..]; t[..f] + [s[f]] + t[f..] == s
  {
    var t := s[..f] + s[f + 1..];
    assert t[..f] == s[..f];
    assert t[f..] == s[f + 1..];
    assert s == s[..f] + [s[f]] + s[f + 1..];
  }

  /** Every non-empty token is counted exactly as often as in the first n
      tokens; only empty tokens are ever dropped. */
  lemma {:induction false} KeptCounts(argv: seq<string>, n: nat, s: string)
    requires n <= |argv| && s != ""
    ensures multiset(Kept(argv, n))[s] == multiset(argv[..n])[s]
  {
    if n > 0 {
      KeptCounts(argv, n - 1, s);
      assert argv[..n] == argv[..n - 1] + [argv[n - 1]];
    }
  }

  /** Every non-empty token ends up exactly once, as the filename or among the
      flag tokens. */
  lemma PartitionCounts(argv: seq<string>, s: string)
    requires s != ""
    ensures var (fn, fl) := Partition(argv);
      multiset(fl + [fn])[s] == multiset(argv)[s]
  {
    var r := FindFilename(argv, 0);
    if r.None? {
      NoFilenameCounts(argv, s);
    } else {
      FilenameCounts(argv, r.value, s);
    }
  }

  lemma NoFilenameCounts(argv: seq<string>, s: string)
    requires FindFilename(argv, 0).None? && s != ""
    ensures multiset(Partition(argv).1 + [Partition(argv).0])[s] == multiset(argv)[s]
  {
    KeptCounts(argv, |argv|, s);
    assert argv[..|argv|] == argv;
  }

  /** Taking the token at `f` out as the filename keeps the counts. */
  lemma FilenameCounts(argv: seq<string>, f: nat, s: string)
    requires FindFilename(argv, 0) == Some(f) && s != ""
    ensures multiset(Partition(argv).1 + [Partition(argv).0])[s] == multiset(argv)[s]
  {
    var before, kept, after := argv[..f], Kept(argv, f), argv[f + 1..];
    assert Partition(argv) == (argv[f], kept + after);
    KeptCounts(argv, f, s);
    assert argv == before + [argv[f]] + after;
    MovedCounts(before, kept, argv[f], after, s);
  }

  /** Moving one token from the middle to the end keeps every count. */
  lemma MovedCounts(before: seq<string>, kept: seq<string>, x: string, after: seq<string>, s: string)
    requires multiset(kept)[s] == multiset(before)[s]
    ensures multiset(kept + after + [x])[s] == multiset(before + [x] + after)[s]
  {
  }

  /** The filename is empty exactly when no token qualifies. */
  lemma PartitionFilename(argv: seq<string>)
    ensures Partition(argv).0 == "" <==> forall k :: 0 <= k < |argv| ==> !IsFilenameAt(argv, k)
    ensures Partition(argv).0 != "" ==> !HasPrefix(Partition(argv).0, "-")
  {
    FindFilenameFacts(argv, 0);
  }

  lemma Undashed(t: string)
    requires t != [] && t[0] != '-'
    ensures !HasPrefix(t, "-")
  {
    assert t[..1][0] != "-"[0];
  }

  /** A bare value flag consumes the next token even if it looks like a
      filename. */
  lemma PartitionValueExample()
    ensures Partition(["-q", "fast", "clip.mp4", "-t"]) == ("clip.mp4", ["-q", "fast", "-t"])
  {
    var a := ["-q", "fast", "clip.mp4", "-t"];
    assert a[0][..1] == "-";
    Undashed(a[2]);
    assert ValueSlot(a, 1) && !ValueSlot(a, 2);
    assert !IsFilenameAt(a, 0) && !IsFilenameAt(a, 1) && IsFilenameAt(a, 2);
    assert FindFilename(a, 1) == Some(2);
    assert FindFilename(a, 0) == Some(2);
    assert Kept(a, 1) == ["-q"];
    assert Kept(a, 2) == ["-q", "fast"];
    assert a[3..] == ["-t"];
    assert Partition(a) == (a[2], Kept(a, 2) + a[3..]);
    assert Kept(a, 2) + a[3..] == ["-q", "fast", "-t"];
  }

  /** An empty token right after a bare value flag is that flag's value and
      is kept. */
  lemma PartitionEmptyValueExample()
    ensures Partition(["-q", "", "clip"]) == ("clip", ["-q", ""])
  {
    var a := ["-q", "", "clip"];
    assert a[0][..1] == "-";
    Undashed(a[2]);
    assert ValueSlot(a, 1) && !ValueSlot(a, 2);
    assert !IsFilenameAt(a, 0) && !IsFilenameAt(a, 1) && IsFilenameAt(a, 2);
    assert FindFilename(a, 1) == Some(2);
    assert FindFilename(a, 0) == Some(2);
    assert Kept(a, 1) == ["-q"];
    assert Kept(a, 2) == ["-q", ""];
    assert a[3..] == [];
    assert Partition(a) == (a[2], Kept(a, 2) + a[3..]);
    assert Kept(a, 2) + a[3..] == ["-q", ""];
  }

  /** The `-q=value` form keeps its value and consumes nothing. */
  lemma PartitionInlineValueExample()
    ensures Partition(["-q=fast", "clip", "-hw"]) == ("clip", ["-q=fast", "-hw"])
  {
    var b := ["-q=fast", "clip", "-hw"];
    assert b[0][..1] == "-";
    Undashed(b[1]);
    assert !IsValueFlag(b[0]);
    assert !ValueSlot(b, 1);
    assert !IsFilenameAt(b, 0) && IsFilenameAt(b, 1);
    assert FindFilename(b, 0) == Some(1);
    assert Kept(b, 1) == ["-q=fast"];
    assert b[2..] == ["-hw"];
    assert Partition(b) == (b[1], Kept(b, 1) + b[2..]);
    assert Kept(b, 1) + b[2..] == ["-q=fast", "-hw"];
  }

  /** A bare value flag that is itself a value consumes nothing. */
  lemma PartitionFlagAsValueExample()
    ensures Partition(["-r", "-q", "clip"]) == ("clip", ["-r", "-q"])
  {
    var c := ["-r", "-q", "clip"];
    assert c[0][..1] == "-" && c[1][..1] == "-";
    Undashed(c[2]);
    assert ValueSlot(c, 1) && !ValueSlot(c, 2);
    assert !IsFilenameAt(c, 0) && !IsFilenameAt(c, 1) && IsFilenameAt(c, 2);
    assert FindFilename(c, 1) == Some(2);
    assert FindFilename(c, 0) == Some(2);
    assert Kept(c, 1) == ["-r"];
    assert Kept(c, 2) == ["-r", "-q"];
    assert c[3..] == [];
    assert Partition(c) == (c[2], Kept(c, 2) + c[3..]);
    assert Kept(c, 2) + c[3..] == ["-r", "-q"];
  }

  /** A name right after a bare `-q` is its value: there is no filename. */
  lemma PartitionMissingExample()
    ensures Partition(["-q", "clip"]) == ("", ["-q", "clip"])
  {
    var d := ["-q", "clip"];
    assert d[0][..1] == "-";
    assert ValueSlot(d, 1);
    assert !IsFilenameAt(d, 0) && !IsFilenameAt(d, 1);
    assert FindFilename(d, 1) == None;
    assert FindFilename(d, 0) == None;
    assert Kept(d, 1) == ["-q"];
    assert Kept(d, 2) == ["-q", "clip"];
  }

  // ---------------------------------------------------------------------
  // From os.Args to an invocation
  // ---------------------------------------------------------------------

  /** The two exits before a model is built: no argument at all, and no
      filename among the arguments. */
  datatype CliError = Usage | MissingFilename

  /** What main derives from the argument vector before flag parsing. */
  datatype Invocation = Invocation(
    filenameToken: string,
    flagTokens: seq<string>,
    filename: string,
    probeRel: string)

  /** main up to normalizeFilename: the usage exit, the partition, the
      missing-filename exit and the name derivation. */
  method ParseCommandLine(osArgs: seq<string>) returns (r: Result<Invocation, CliError>)
    ensures |osArgs| < 2 ==> r == Failure(Usage)
    ensures |osArgs| >= 2 ==>
      var (fn, fl) := Partition(osArgs[1..]);
      (fn == "" ==> r == Failure(MissingFilename)) &&
      (fn != "" ==> r == Success(Invocation(fn, fl, NormalizeFilename(fn).0, NormalizeFilename(fn).1)))
  {
    if |osArgs| < 2 {
      return Failure(Usage);
    }
    var filenameToken, flagTokens := PartitionArgs(osArgs[1..]);
    if filenameToken == "" {
      return Failure(MissingFilename);
    }
    var (filename, probeRel) := NormalizeFilename(filenameToken);
    r := Success(Invocation(filenameToken, flagTokens, filename, probeRel));
  }

  /** Main reaches the model only with a filename that is a genuine argument. */
  lemma CommandLineOutcome(osArgs: seq<string>)
    requires |osArgs| >= 2
    ensures var argv := osArgs[1..];
      (Partition(argv).0 == "" <==> FindFilename(argv, 0).None?) &&
      (FindFilename(argv, 0).Some? ==> Partition(argv).0 == argv[FindFilename(argv, 0).value])
  {
    FindFilenameFacts(osArgs[1..], 0);
  }

  // ---------------------------------------------------------------------
  // Script arguments
  // ---------------------------------------------------------------------

  /** The parsed flag values; their defaults are `balanced` and
      `1440,1080,720`. */
  datatype FlagValues = FlagValues(basic: bool, q: string, r: string, hw: bool, t: bool)

  const DefaultFlags := FlagValues(false, "balanced", "1440,1080,720", false, false)

  /** `xs` when `b` holds, nothing otherwise. */
  function Opt(b: bool, xs: seq<string>): seq<string>
  {
    if b then xs else []
  }

  /** The arguments for the script: in enhanced mode -t, -hw, -r R and -q Q in
      this order, each only when set; in basic mode only -t. Nothing is
      passed exactly when no option the mode passes is set. */
  function PassArgs(useEnhanced: bool, f: FlagValues): (r: seq<string>)
    ensures r == [] <==> !f.t && (!useEnhanced || (!f.hw && f.r == "" && f.q == ""))
  {
    if useEnhanced then
      Opt(f.t, ["-t"]) + (Opt(f.hw, ["-hw"]) + (Opt(f.r != "", ["-r", f.r]) + Opt(f.q != "", ["-q", f.q])))
    else Opt(f.t, ["-t"])
  }

  /** passArgs, appended to one option at a time. */
  method BuildPassArgs(useEnhanced: bool, f: FlagValues) returns (passArgs: seq<string>)
    ensures passArgs == PassArgs(useEnhanced, f)
  {
    passArgs := [];
    if useEnhanced {
      if f.t {
        passArgs := passArgs + ["-t"];
      }
      if f.hw {
        passArgs := passArgs + ["-hw"];
      }
      if f.r != "" {
        passArgs := passArgs + ["-r", f.r];
      }
      if f.q != "" {
        passArgs := passArgs + ["-q", f.q];
      }
    } else {
      if f.t {
        passArgs := passArgs + ["-t"];
      }
    }
  }

  /** Nothing set: no -t, no -hw, empty resolutions and preset. */
  const Unset := FlagValues(false, "", "", false, false)

  /** Reads script options back, left to right, the way a getopt loop over
      -t, -hw, -r R and -q Q would; other tokens are skipped. */
  function ReadOptions(args: seq<string>, acc: FlagValues): FlagValues
    decreases |args|
  {
    if args == [] then acc
    else if args[0] == "-t" then ReadOptions(args[1..], acc.(t := true))
    else if args[0] == "-hw" then ReadOptions(args[1..], acc.(hw := true))
    else if args[0] == "-r" && |args| >= 2 then ReadOptions(args[2..], acc.(r := args[1]))
    else if args[0] == "-q" && |args| >= 2 then ReadOptions(args[2..], acc.(q := args[1]))
    else ReadOptions(args[1..], acc)
  }

  lemma ReadQuality(f: FlagValues, acc: FlagValues)
    requires acc.q == ""
    ensures ReadOptions(Opt(f.q != "", ["-q", f.q]), acc) == acc.(q := f.q)
  {
    if f.q != "" {
      assert ["-q", f.q][2..] == [];
    }
  }

  lemma ReadResolutions(f: FlagValues, acc: FlagValues)
    requires acc.q == "" && acc.r == ""
    ensures ReadOptions(Opt(f.r != "", ["-r", f.r]) + Opt(f.q != "", ["-q", f.q]), acc) == acc.(r := f.r, q := f.q)
  {
    var rest := Opt(f.q != "", ["-q", f.q]);
    if f.r != "" {
      assert (["-r", f.r] + rest)[2..] == rest;
      ReadQuality(f, acc.(r := f.r));
    } else {
      assert [] + rest == rest;
      ReadQuality(f, acc);
    }
  }

  lemma ReadHardware(f: FlagValues, acc: FlagValues)
    requires acc.q == "" && acc.r == "" && !acc.hw
    ensures ReadOptions(Opt(f.hw, ["-hw"]) + (Opt(f.r != "", ["-r", f.r]) + Opt(f.q != "", ["-q", f.q])), acc) ==
      acc.(hw := f.hw, r := f.r, q := f.q)
  {
    var rest := Opt(f.r != "", ["-r", f.r]) + Opt(f.q != "", ["-q", f.q]);
    if f.hw {
      assert (["-hw"] + rest)[1..] == rest;
      ReadResolutions(f, acc.(hw := true));
    } else {
      assert [] + rest == rest;
      ReadResolutions(f, acc);
    }
  }

  /** The script recovers exactly the options it was given in enhanced mode:
      passArgs loses nothing and invents nothing. */
  lemma PassArgsRoundTrip(f: FlagValues)
    ensures ReadOptions(PassArgs(true, f), Unset) == f.(basic := false)
  {
    var rest := Opt(f.hw, ["-hw"]) + (Opt(f.r != "", ["-r", f.r]) + Opt(f.q != "", ["-q", f.q]));
    if f.t {
      assert (["-t"] + rest)[1..] == rest;
      ReadHardware(f, Unset.(t := true));
    } else {
      assert [] + rest == rest;
      ReadHardware(f, Unset);
    }
  }

  /** In basic mode only -t reaches the script. */
  lemma BasicPassArgs(f: FlagValues)
    ensures ReadOptions(PassArgs(false, f), Unset) == Unset.(t := f.t)
    ensures PassArgs(false, f) == [] || PassArgs(false, f) == ["-t"]
  {
    if f.t {
      assert ["-t"][1..] == [];
    }
  }

  /** With the default flags the enhanced script gets the default
      resolutions and preset and nothing else. */
  lemma DefaultPassArgs()
    ensures PassArgs(!DefaultFlags.basic, DefaultFlags) == ["-r", "1440,1080,720", "-q", "balanced"]
  {
  }

  // ---------------------------------------------------------------------
  // The model main starts
  // ---------------------------------------------------------------------

  /** main's model: initialModel plus the script arguments and the paths
      resolved from the working directory. */
  function LaunchModel(filename: string, f: FlagValues, dur: int,
                       workDir: string, probePath: string, firstArg: string): (m: Model)
    ensures m.config.filename == filename && m.config.useEnhanced == !f.basic
    ensures m.config.durationSec == dur && m.config.args == PassArgs(!f.basic, f)
    ensures m.config.workDir == workDir && m.config.probePath == probePath && m.config.firstArg == firstArg
    ensures !m.started && !m.done && m.err.None? && m.jobDone == 0 && m.totalJobs == 0
    ensures m.percent == 0.0 && m.status == StatusReady
    ensures m == InitialModel(filename, !f.basic, dur).(config := m.config)
  {
    var m := InitialModel(filename, !f.basic, dur);
    m.(config := m.config.(args := PassArgs(!f.basic, f), workDir := workDir,
                           probePath := probePath, firstArg := firstArg))
  }

  /** main never sets the number of jobs, so from the model it starts, the
      overall fraction stays in [0, 1] whatever messages arrive. */
  lemma LaunchedPercentInRange(filename: string, f: FlagValues, dur: int, workDir: string,
                               probePath: string, firstArg: string, msgs: seq<Msg>)
    ensures var r := Run(LaunchModel(filename, f, dur, workDir, probePath, firstArg), msgs);
      r.totalJobs == 0 && 0.0 <= r.percent <= 1.0
  {
    RunKeepsUnitPercent(LaunchModel(filename, f, dur, workDir, probePath, firstArg), msgs);
  }

  /** The -basic flag selects the basic script, its absence the enhanced one. */
  lemma LaunchScript(filename: string, f: FlagValues, dur: int, workDir: string,
                     probePath: string, firstArg: string)
    ensures var m := LaunchModel(filename, f, dur, workDir, probePath, firstArg);
      (ScriptName(m.config.useEnhanced) == "hls_script.sh" <==> f.basic) &&
      (ScriptName(m.config.useEnhanced) == "enhanced_hls.sh" <==> !f.basic)
  {
    var m := LaunchModel(filename, f, dur, workDir, probePath, firstArg);
    ScriptNamesDiffer(m.config.useEnhanced, false);
    ScriptNamesDiffer(m.config.useEnhanced, true);
  }
}
