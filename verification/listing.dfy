/**
  The directory listing shown in the browser: the names `make_list` keeps and
  the order it puts them in, and the directory / audio / other classification
  every handler applies to a row before acting on it.
 */
module Listing {

  /** A directory entry's name; the operating system never lists an empty one. */
  type FileName = s: string | |s| > 0 witness "."

  /** The parent-directory row every listing starts with. */
  const Parent: FileName := ".."

  /** The `audioFormats` list, with its mixed case and its dotless "wma". */
  const AudioFormats: seq<string> :=
    [".wav", ".mp3", ".ogg", ".flac", ".MP3", ".FLAC", ".OGG", ".WAV", "wma"]

  /** What a row is, decided once: the filesystem's answer first, then the name. */
  datatype EntryKind = Directory | AudioFile | OtherFile

  /** Hidden entries are those whose name starts with a dot. */
  predicate IsHidden(name: FileName)
  {
    name[0] == '.'
  }

  /**
    Python 2's ordering of the byte-string names `os.listdir` returns: byte
    by byte, a proper prefix first. Characters here stand for those bytes;
    for UTF-8 names the order is the same as code point by code point.
   */
  predicate LexLe(a: string, b: string)
  {
    |a| == 0 || (|b| > 0 && (a[0] < b[0] || (a[0] == b[0] && LexLe(a[1..], b[1..]))))
  }

  lemma {:induction false} LexLeReflexive(a: string)
    ensures LexLe(a, a)
  {
    if |a| > 0 {
      LexLeReflexive(a[1..]);
    }
  }

  lemma {:induction false} LexLeTotal(a: string, b: string)
    ensures LexLe(a, b) || LexLe(b, a)
  {
    if |a| > 0 && |b| > 0 && a[0] == b[0] {
      LexLeTotal(a[1..], b[1..]);
    }
  }

  lemma {:induction false} LexLeTransitive(a: string, b: string, c: string)
    requires LexLe(a, b) && LexLe(b, c)
    ensures LexLe(a, c)
  {
    if |a| > 0 && a[0] == b[0] && b[0] == c[0] {
      LexLeTransitive(a[1..], b[1..], c[1..]);
    }
  }

  lemma {:induction false} LexLeAntisymmetric(a: string, b: string)
    requires LexLe(a, b) && LexLe(b, a)
    ensures a == b
  {
    if |a| > 0 {
      LexLeAntisymmetric(a[1..], b[1..]);
      assert a == [a[0]] + a[1..];
      assert b == [b[0]] + b[1..];
    }
  }

  /** Ascending order, as `list.sort` leaves it. */
  predicate Sorted(s: seq<FileName>)
  {
    forall i, j :: 0 <= i < j < |s| ==> LexLe(s[i], s[j])
  }

  /** The names a listing keeps: the visible ones, in their original order. */
  function Visible(names: seq<FileName>): seq<FileName>
  {
    if |names| == 0 then []
    else if IsHidden(names[0]) then Visible(names[1..])
    else [names[0]] + Visible(names[1..])
  }

  /** Each visible name is kept as often as it occurs; no hidden name is kept. */
  lemma {:induction false} VisibleCount(names: seq<FileName>, x: FileName)
    ensures multiset(Visible(names))[x] == if IsHidden(x) then 0 else multiset(names)[x]
  {
    if |names| > 0 {
      assert names == [names[0]] + names[1..];
      VisibleCount(names[1..], x);
    }
  }

  /** `x` placed into a sorted sequence before the first element it does not exceed. */
  function Insert(x: FileName, s: seq<FileName>): (r: seq<FileName>)
    ensures multiset(r) == multiset(s) + multiset{x}
  {
    if |s| == 0 then [x]
    else if LexLe(x, s[0]) then [x] + s
    else
      assert s == [s[0]] + s[1..];
      [s[0]] + Insert(x, s[1..])
  }

  lemma {:induction false} InsertSorted(x: FileName, s: seq<FileName>)
    requires Sorted(s)
    ensures Sorted(Insert(x, s))
  {
    var r := Insert(x, s);
    if |s| > 0 {
      if LexLe(x, s[0]) {
        forall j | 0 < j < |r|
          ensures LexLe(x, r[j])
        {
          assert r[j] == s[j - 1];
          if j > 1 {
            LexLeTransitive(x, s[0], r[j]);
          }
        }
      } else {
        LexLeTotal(x, s[0]);
        InsertSorted(x, s[1..]);
        var t := Insert(x, s[1..]);
        forall j | 0 <= j < |t|
          ensures LexLe(s[0], t[j])
        {
          assert t[j] in multiset(t);
          if t[j] != x {
            assert t[j] in multiset(s[1..]);
            var k :| 0 <= k < |s[1..]| && s[1..][k] == t[j];
            assert s[k + 1] == t[j];
          }
        }
      }
    }
  }

  /** Insertion sort of a sequence of names. */
  function Sort(s: seq<FileName>): (r: seq<FileName>)
    ensures multiset(r) == multiset(s)
    ensures Sorted(r)
  {
    if |s| == 0 then []
    else
      assert s == [s[0]] + s[1..];
      var t := Sort(s[1..]);
      InsertSorted(s[0], t);
      Insert(s[0], t)
  }

  /** The first element of a sorted sequence is at most each of its elements. */
  lemma SortedHeadLeast(a: seq<FileName>, x: FileName)
    requires Sorted(a) && x in multiset(a)
    ensures LexLe(a[0], x)
  {
    var i :| 0 <= i < |a| && a[i] == x;
    if i == 0 {
      LexLeReflexive(x);
    }
  }

  lemma TailMultiset(a: seq<FileName>, b: seq<FileName>)
    requires |a| > 0 && |b| > 0 && a[0] == b[0] && multiset(a) == multiset(b)
    ensures multiset(a[1..]) == multiset(b[1..])
  {
    assert a == [a[0]] + a[1..];
    assert b == [b[0]] + b[1..];
    assert multiset(a) == multiset{a[0]} + multiset(a[1..]);
    assert multiset(b) == multiset{b[0]} + multiset(b[1..]);
    forall x
      ensures multiset(a[1..])[x] == multiset(b[1..])[x]
    {
      assert multiset(a)[x] == multiset(b)[x];
    }
  }

  /** There is only one sorted arrangement of a multiset of names. */
  lemma {:induction false} SortedUnique(a: seq<FileName>, b: seq<FileName>)
    requires Sorted(a) && Sorted(b) && multiset(a) == multiset(b)
    ensures a == b
  {
    assert |a| == |multiset(a)| == |multiset(b)| == |b|;
    if |a| > 0 {
      SortedHeadLeast(a, b[0]);
      SortedHeadLeast(b, a[0]);
      LexLeAntisymmetric(a[0], b[0]);
      TailMultiset(a, b);
      SortedUnique(a[1..], b[1..]);
      assert a == [a[0]] + a[1..];
      assert b == [b[0]] + b[1..];
    }
  }

  /**
    The rows of a listing, from the names the directory holds: ".." first,
    then every visible name as often as it occurs, in ascending order.
   */
  function MakeList(names: seq<FileName>): (r: seq<FileName>)
    ensures |r| >= 1 && r[0] == Parent
    ensures Sorted(r[1..])
    ensures forall x: FileName :: multiset(r[1..])[x] == if IsHidden(x) then 0 else multiset(names)[x]
  {
    var rows := Sort(Visible(names));
    assert ([Parent] + rows)[1..] == rows;
    assert forall x: FileName :: multiset(rows)[x] == if IsHidden(x) then 0 else multiset(names)[x] by {
      forall x: FileName
        ensures multiset(rows)[x] == if IsHidden(x) then 0 else multiset(names)[x]
      {
        VisibleCount(names, x);
      }
    }
    [Parent] + rows
  }

  /** A listing is what `MakeList` returns exactly when it has the three properties above. */
  lemma MakeListCharacterised(names: seq<FileName>, l: seq<FileName>)
    requires |l| >= 1 && l[0] == Parent && Sorted(l[1..])
    requires forall x: FileName :: multiset(l[1..])[x] == if IsHidden(x) then 0 else multiset(names)[x]
    ensures l == MakeList(names)
  {
    var r := MakeList(names);
    assert multiset(l[1..]) == multiset(r[1..]);
    SortedUnique(l[1..], r[1..]);
    assert l == [l[0]] + l[1..];
    assert r == [r[0]] + r[1..];
  }

  lemma VisibleExample()
    ensures Visible([".hidden", "b.wav", "a.mp3", "sub"]) == ["b.wav", "a.mp3", "sub"]
  {
    var s3: seq<FileName> := ["sub"];
    var s2: seq<FileName> := ["a.mp3"] + s3;
    var s1: seq<FileName> := ["b.wav"] + s2;
    var s0: seq<FileName> := [".hidden"] + s1;
    assert s3[1..] == [];
    assert Visible(s3) == s3;
    assert s2[1..] == s3;
    assert Visible(s2) == s2;
    assert s1[1..] == s2;
    assert Visible(s1) == s1;
    assert s0[1..] == s1;
    assert IsHidden(s0[0]);
    assert Visible(s0) == s1;
  }

  lemma MakeListFromVisible(names: seq<FileName>, l: seq<FileName>)
    requires |l| >= 1 && l[0] == Parent && Sorted(l[1..])
    requires multiset(l[1..]) == multiset(Visible(names))
    ensures l == MakeList(names)
  {
    forall x: FileName
      ensures multiset(l[1..])[x] == if IsHidden(x) then 0 else multiset(names)[x]
    {
      VisibleCount(names, x);
    }
    MakeListCharacterised(names, l);
  }

  /** A directory holding ".hidden", "b.wav", "a.mp3" and "sub" lists as "..", "a.mp3", "b.wav", "sub". */
  lemma MakeListExample(names: seq<FileName>, l: seq<FileName>)
    requires names == [".hidden", "b.wav", "a.mp3", "sub"]
    requires l == ["..", "a.mp3", "b.wav", "sub"]
    ensures MakeList(names) == l
  {
    VisibleExample();
    assert l[1..] == ["a.mp3", "b.wav", "sub"];
    assert multiset(l[1..]) == multiset(Visible(names));
    assert Sorted(l[1..]) by {
      assert LexLe("a.mp3", "b.wav");
      assert LexLe("b.wav", "sub");
      assert LexLe("a.mp3", "sub");
    }
    MakeListFromVisible(names, l);
  }

  /** `str.endswith` for one suffix. */
  predicate EndsWith(s: string, suffix: string)
  {
    |suffix| <= |s| && s[|s| - |suffix|..] == suffix
  }

  /** `str.endswith` for a tuple of suffixes: true when any one of them matches. */
  predicate EndsWithAny(s: string, suffixes: seq<string>)
  {
    |suffixes| > 0 && (EndsWith(s, suffixes[0]) || EndsWithAny(s, suffixes[1..]))
  }

  /** The tuple form matches exactly when one of its members does. */
  lemma {:induction false} EndsWithAnyMeaning(s: string, suffixes: seq<string>)
    ensures EndsWithAny(s, suffixes) <==> exists k :: 0 <= k < |suffixes| && EndsWith(s, suffixes[k])
  {
    if |suffixes| > 0 {
      EndsWithAnyMeaning(s, suffixes[1..]);
      if EndsWithAny(s, suffixes[1..]) {
        var k :| 0 <= k < |suffixes[1..]| && EndsWith(s, suffixes[1..][k]);
        assert EndsWith(s, suffixes[k + 1]);
      }
      if exists k :: 0 <= k < |suffixes| && EndsWith(s, suffixes[k]) {
        var k :| 0 <= k < |suffixes| && EndsWith(s, suffixes[k]);
        if k > 0 {
          assert EndsWith(s, suffixes[1..][k - 1]);
        }
      }
    }
  }

  /** Whether no suffix in a list contains a slash. */
  predicate SlashFree(suffixes: seq<string>)
  {
    forall k, i :: 0 <= k < |suffixes| && 0 <= i < |suffixes[k]| ==> suffixes[k][i] != '/'
  }

  /** The audio test: a case-sensitive match against the `audioFormats` suffixes. */
  predicate IsAudio(path: string)
  {
    EndsWithAny(path, AudioFormats)
  }

  /** The kind of a row: a directory if the filesystem says so, otherwise audio or other by name. */
  function Classify(path: string, isDir: bool): (k: EntryKind)
  {
    if isDir then Directory
    else if IsAudio(path) then AudioFile
    else OtherFile
  }

  /**
    A row is a directory exactly when the filesystem says so; otherwise it is
    audio exactly when its path ends with one of the `audioFormats` suffixes.
   */
  lemma ClassifyMeaning(path: string, isDir: bool)
    ensures Classify(path, isDir) == Directory <==> isDir
    ensures Classify(path, isDir) == AudioFile
            <==> !isDir && exists i :: 0 <= i < |AudioFormats| && EndsWith(path, AudioFormats[i])
    ensures Classify(path, isDir) == OtherFile
            <==> !isDir && forall i :: 0 <= i < |AudioFormats| ==> !EndsWith(path, AudioFormats[i])
  {
    EndsWithAnyMeaning(path, AudioFormats);
  }

  /**
    `os.path.join` of a directory and one name: an absolute name replaces
    the directory; otherwise the path is the directory, one '/' unless the
    directory is empty or already ends in one, and the name.
   */
  function Join(dir: string, name: FileName): (path: string)
    ensures EndsWith(path, name)
    ensures name[0] == '/' ==> path == name
    ensures name[0] != '/' ==> |dir| + |name| <= |path| <= |dir| + |name| + 1 && path[..|dir|] == dir
    ensures name[0] != '/' ==> (|path| == |dir| + |name| <==> |dir| == 0 || dir[|dir| - 1] == '/')
    ensures name[0] != '/' && |dir| > 0 ==> path[|path| - |name| - 1] == '/'
  {
    if name[0] == '/' then name
    else if |dir| == 0 || dir[|dir| - 1] == '/' then dir + name
    else dir + "/" + name
  }

  /** A suffix with no slash in it matches a joined path exactly when it matches the name. */
  lemma JoinEndsWith(dir: string, name: FileName, suffix: string)
    requires forall i :: 0 <= i < |suffix| ==> suffix[i] != '/'
    ensures EndsWith(Join(dir, name), suffix) <==> EndsWith(name, suffix)
  {
    var p := Join(dir, name);
    if |suffix| <= |name| {
      assert p[|p| - |suffix|..] == name[|name| - |suffix|..];
    } else if p != name && |suffix| <= |p| {
      var slash := |p| - |name| - 1;
      assert p[slash] == '/';
      assert p[|p| - |suffix|..][slash - (|p| - |suffix|)] == '/';
    }
  }

  /** Classifying the full path that the handlers build gives the same kind as classifying the name. */
  lemma {:induction false} JoinEndsWithAny(dir: string, name: FileName, suffixes: seq<string>)
    requires SlashFree(suffixes)
    ensures EndsWithAny(Join(dir, name), suffixes) <==> EndsWithAny(name, suffixes)
  {
    if |suffixes| > 0 {
      JoinEndsWith(dir, name, suffixes[0]);
      assert SlashFree(suffixes[1..]) by {
        forall k, i | 0 <= k < |suffixes[1..]| && 0 <= i < |suffixes[1..][k]|
          ensures suffixes[1..][k][i] != '/'
        {
          assert suffixes[1..][k] == suffixes[k + 1];
        }
      }
      JoinEndsWithAny(dir, name, suffixes[1..]);
    }
  }

  /** Classifying the full path that the handlers build gives the same kind as classifying the name. */
  lemma ClassifyJoin(dir: string, name: FileName, isDir: bool)
    ensures Classify(Join(dir, name), isDir) == Classify(name, isDir)
  {
    assert SlashFree(AudioFormats) by {
      forall k, i | 0 <= k < |AudioFormats| && 0 <= i < |AudioFormats[k]|
        ensures AudioFormats[k][i] != '/'
      {
      }
    }
    JoinEndsWithAny(dir, name, AudioFormats);
  }

  /** Upper-case ".WAV" is in the list. */
  lemma UpperCaseWavIsAudio(name: string)
    requires name == "kick.WAV"
    ensures Classify(name, false) == AudioFile
  {
    ClassifyMeaning(name, false);
    assert EndsWith(name, AudioFormats[7]);
  }

  /** The test is case-sensitive: mixed-case ".Wav" matches no suffix. */
  lemma MixedCaseWavIsOther(name: string)
    requires name == "kick.Wav"
    ensures Classify(name, false) == OtherFile
  {
    ClassifyMeaning(name, false);
    assert name[4..] == ".Wav";
    assert name[3..] == "k.Wav";
    assert name[5..] == "Wav";
  }

  /** "wma" is listed without its dot, so any name ending in those three letters is audio. */
  lemma DotlessWmaIsAudio(name: string)
    requires name == "loopwma"
    ensures Classify(name, false) == AudioFile
  {
    ClassifyMeaning(name, false);
    assert EndsWith(name, AudioFormats[8]);
  }

  /** A directory is a directory whatever its name. */
  lemma DirectoryNamedLikeAudio(name: string)
    requires name == "samples.wav"
    ensures Classify(name, true) == Directory
  {
  }
}
