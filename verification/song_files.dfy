/** Song files on the SD card (GhostDrive/Program.cs).

    When a card is inserted, every file whose extension is ".song" (in any
    case) is pushed into a priority queue weighted by the number its name
    spells, and only the lightest is played. A remote request for song `n`
    opens `<root>/n.song`. This module holds the decimal numbers, the path
    operations and those two decisions. */
module SongFiles {
  import opened Common
  import opened PriorityQueue

  // ---------------------------------------------------------------------
  // Decimal numbers

  predicate IsDigit(c: char)
  {
    '0' <= c <= '9'
  }

  predicate AllDigits(s: string)
  {
    forall i :: 0 <= i < |s| ==> IsDigit(s[i])
  }

  /** The value of a string of digits, most significant first. */
  function DigitsValue(s: string): nat
    requires AllDigits(s)
  {
    if |s| == 0 then 0 else DigitsValue(s[..|s| - 1]) * 10 + (s[|s| - 1] as int - '0' as int)
  }

  /** An unsigned decimal number: one or more digits. */
  function ParseNat(s: string): Option<nat>
  {
    if |s| > 0 && AllDigits(s) then Some(DigitsValue(s)) else None
  }

  /** `byte.Parse`: a number that does not fit a byte overflows. */
  function ParseByte(s: string): (r: Option<byte>)
    ensures r.Some? <==> ParseNat(s).Some? && ParseNat(s).value < U8
    ensures r.Some? ==> r.value == ParseNat(s).value
  {
    var n := ParseNat(s);
    if n.Some? && n.value < U8 then Some(n.value) else None
  }

  function Digit(d: nat): char
    requires d < 10
  {
    ('0' as int + d) as char
  }

  /** The decimal rendering of a number, as string concatenation of an
      integer gives it: no leading zeros, "0" for zero. */
  function Show(n: nat): string
  {
    if n < 10 then [Digit(n)] else Show(n / 10) + [Digit(n % 10)]
  }

  /** Reading back what `Show` wrote gives the number. */
  lemma {:induction false} ShowParses(n: nat)
    ensures |Show(n)| > 0 && AllDigits(Show(n))
    ensures ParseNat(Show(n)) == Some(n)
  {
    if n >= 10 {
      ShowParses(n / 10);
      var s := Show(n);
      assert s[..|s| - 1] == Show(n / 10);
      assert s[|s| - 1] == Digit(n % 10);
      assert AllDigits(s);
      assert DigitsValue(s) == DigitsValue(Show(n / 10)) * 10 + n % 10;
      assert n == n / 10 * 10 + n % 10;
    } else {
      var s := Show(n);
      assert s == [Digit(n)];
      assert s[..0] == [];
      assert AllDigits(s);
      assert DigitsValue(s) == n;
    }
  }

  // ---------------------------------------------------------------------
  // Paths

  predicate IsSeparator(c: char)
  {
    c == '\\' || c == '/'
  }

  predicate NoSeparator(s: string)
  {
    forall i :: 0 <= i < |s| ==> !IsSeparator(s[i])
  }

  /** `Path.GetFileName`: what follows the last separator. */
  function FileName(path: string): (r: string)
    ensures NoSeparator(r) && |r| <= |path| && r == path[|path| - |r|..]
  {
    if |path| == 0 then path
    else if IsSeparator(path[|path| - 1]) then []
    else FileName(path[..|path| - 1]) + [path[|path| - 1]]
  }

  /** The position of the last dot of a name, if any. */
  function LastDot(name: string): (r: Option<nat>)
    ensures r.Some? ==> r.value < |name| && name[r.value] == '.' && '.' !in name[r.value + 1..]
    ensures r.None? ==> '.' !in name
  {
    if |name| == 0 then None
    else if name[|name| - 1] == '.' then Some(|name| - 1)
    else
      var r := LastDot(name[..|name| - 1]);
      assert name[..|name| - 1] + [name[|name| - 1]] == name;
      if r.Some? then
        assert name[r.value + 1..] == name[..|name| - 1][r.value + 1..] + [name[|name| - 1]];
        r
      else None
  }

  /** `Path.GetExtension`: from the last dot of the file name on, or empty
      when there is no dot or the dot ends the name. */
  function Extension(path: string): string
  {
    var name := FileName(path);
    var dot := LastDot(name);
    if dot.None? || dot.value == |name| - 1 then "" else name[dot.value..]
  }

  /** `Path.GetFileNameWithoutExtension`: the file name up to its last dot. */
  function Stem(path: string): string
  {
    var name := FileName(path);
    var dot := LastDot(name);
    if dot.None? then name else name[..dot.value]
  }

  function LowerChar(c: char): char
  {
    if 'A' <= c <= 'Z' then (c as int + 32) as char else c
  }

  /** `String.ToLower` on the ASCII letters. */
  function Lower(s: string): (r: string)
    ensures |r| == |s|
    ensures forall i :: 0 <= i < |s| ==> r[i] == LowerChar(s[i])
  {
    seq(|s|, i requires 0 <= i < |s| => LowerChar(s[i]))
  }

  /** A string without capital letters is its own lower case. */
  lemma LowerKeeps(s: string)
    requires forall i :: 0 <= i < |s| ==> !('A' <= s[i] <= 'Z')
    ensures Lower(s) == s
  {
    assert forall i :: 0 <= i < |s| ==> Lower(s)[i] == s[i];
  }

  lemma SongExtensionLower()
    ensures Lower(".song") == ".song"
  {
    var e := ".song";
    assert e[0] == '.' && e[1] == 's' && e[2] == 'o' && e[3] == 'n' && e[4] == 'g';
    LowerKeeps(e);
  }

  /** The filter of the insert handler. */
  predicate IsSong(path: string)
  {
    Lower(Extension(path)) == ".song"
  }

  /** `Path.Combine`: a rooted second part replaces the first; otherwise
      the two are joined by one separator. */
  function Combine(root: string, name: string): string
  {
    if |name| == 0 then root
    else if |root| == 0 || IsSeparator(name[0]) then name
    else if IsSeparator(root[|root| - 1]) then root + name
    else root + "\\" + name
  }

  /** The file name of what follows a separator is that part. */
  lemma {:induction false} FileNameAfter(prefix: string, name: string)
    requires |prefix| > 0 && IsSeparator(prefix[|prefix| - 1]) && NoSeparator(name)
    ensures FileName(prefix + name) == name
    decreases |name|
  {
    if |name| == 0 {
      assert prefix + name == prefix;
    } else {
      var p := prefix + name;
      assert p[..|p| - 1] == prefix + name[..|name| - 1];
      FileNameAfter(prefix, name[..|name| - 1]);
      assert name[..|name| - 1] + [name[|name| - 1]] == name;
    }
  }

  /** Combining a root with a plain file name gives a path whose file name
      is that name. */
  lemma CombineFileName(root: string, name: string)
    requires |root| > 0 && |name| > 0 && NoSeparator(name)
    ensures FileName(Combine(root, name)) == name
  {
    if IsSeparator(root[|root| - 1]) {
      FileNameAfter(root, name);
    } else {
      FileNameAfter(root + "\\", name);
      assert root + "\\" + name == (root + "\\") + name;
    }
  }

  // ---------------------------------------------------------------------
  // A remote request to play a song

  /** The `OnPlaySong` handler: ignored while no card root is known,
      otherwise the path of `<root>/n.song`. */
  function SongRequest(root: Option<string>, n: nat): (r: Option<string>)
    ensures r.Some? <==> root.Some?
  {
    if root.None? then None else Some(Combine(root.value, Show(n) + ".song"))
  }

  /** The dot of ".song" is the last dot of a number followed by it. */
  lemma SongName(n: nat)
    ensures var name := Show(n) + ".song";
      NoSeparator(name) && LastDot(name) == Some(|Show(n)|)
  {
    var k := |Show(n)|;
    var name := Show(n) + ".song";
    ShowParses(n);
    assert name[k + 1..] == "song";
    assert name[k] == '.';
    assert forall i :: 0 <= i < k ==> name[i] == Show(n)[i];
  }

  /** A requested song, on a card with a known root, is a file the insert
      handler would also queue, under the number that was asked for. */
  lemma RequestIsSong(root: string, n: nat)
    requires |root| > 0
    ensures var f := SongRequest(Some(root), n).value;
      IsSong(f) && ParseNat(Stem(f)) == Some(n)
  {
    var k := |Show(n)|;
    var name := Show(n) + ".song";
    SongName(n);
    CombineFileName(root, name);
    var f := SongRequest(Some(root), n).value;
    assert FileName(f) == name;
    assert LastDot(name) == Some(k) && k != |name| - 1;
    assert Extension(f) == name[k..];
    assert name[k..] == ".song";
    SongExtensionLower();
    assert Stem(f) == name[..k];
    assert name[..k] == Show(n);
    ShowParses(n);
  }

  // ---------------------------------------------------------------------
  // Choosing the first song

  /** The weight the queue gives a file: the byte its stem spells. Files
      whose stem is not a byte number never get this far when there are
      two or more songs (see `ChooseSong`). */
  function Weight(path: string): nat
  {
    var b := ParseByte(Stem(path));
    if b.Some? then b.value else 0
  }

  /** The songs among the files, in directory order. */
  function Songs(files: seq<string>): (r: seq<string>)
    ensures |r| <= |files|
    ensures forall f :: f in r <==> f in files && IsSong(f)
  {
    if |files| == 0 then []
    else
      var rest := Songs(files[1..]);
      assert forall f :: f in files <==> f == files[0] || f in files[1..];
      if IsSong(files[0]) then [files[0]] + rest else rest
  }

  /** Push every song, as the `foreach` does. */
  function QueueAll(h: Heap<string>, songs: seq<string>): (r: Result<Heap<string>>)
    requires WellFormed(h)
    ensures r.Ok? ==> WellFormed(r.value)
    decreases |songs|
  {
    if |songs| == 0 then Ok(h)
    else
      match Push(h, songs[0], Weight)
      case Err(e) => Err(e)
      case Ok(h1) => QueueAll(h1, songs[1..])
  }

  /** Queueing fails only when the songs outnumber the free slots; it
      adds exactly the songs to what is held and keeps the heap property. */
  lemma {:induction false} QueueAllFacts(h: Heap<string>, songs: seq<string>)
    requires WellFormed(h)
    ensures var r := QueueAll(h, songs);
      && (r.Err? <==> h.bottom + |songs| > Capacity(h))
      && (r.Ok? ==> Capacity(r.value) == Capacity(h) && Held(r.value) == Held(h) + SomeOf(songs))
      && (r.Ok? && Ordered(h, Weight) ==> Ordered(r.value, Weight))
    decreases |songs|
  {
    if |songs| > 0 {
      var p := Push(h, songs[0], Weight);
      if p.Ok? {
        var h1 := p.value;
        QueueAllFacts(h1, songs[1..]);
        var r := QueueAll(h1, songs[1..]);
        assert QueueAll(h, songs) == r;
      }
    }
  }

  /** The songs as the queue holds them. */
  function SomeOf(songs: seq<string>): multiset<Option<string>>
    decreases |songs|
  {
    if |songs| == 0 then multiset{} else multiset{Some(songs[0])} + SomeOf(songs[1..])
  }

  lemma {:induction false} SomeOfHolds(songs: seq<string>, x: Option<string>)
    ensures x in SomeOf(songs) <==> x.Some? && x.value in songs
    decreases |songs|
  {
    if |songs| > 0 {
      SomeOfHolds(songs[1..], x);
      assert forall f :: f in songs <==> f == songs[0] || f in songs[1..];
    }
  }

  /** Whether the queue would evaluate a weight that does not parse: with
      two or more songs every pushed song is compared with its parent. */
  predicate BadStem(songs: seq<string>)
  {
    |songs| >= 2 && exists i :: 0 <= i < |songs| && ParseByte(Stem(songs[i])).None?
  }

  /** The insert handler's choice: queue the songs in a queue as large as
      the directory, and pop the lightest. A lone song is popped without
      any weight being evaluated; with more, a stem that is not a byte
      number makes `byte.Parse` throw. */
  function ChooseSong(files: seq<string>): (r: Result<Option<string>>)
    ensures r.Err? ==> r.error == ParseError
  {
    var songs := Songs(files);
    QueuedSongs(files);
    if BadStem(songs) then Err(ParseError)
    else
      match QueueAll(New(|files|), songs)
      case Err(e) => Err(e)
      case Ok(h) => if IsEmpty(h) then Ok(None) else Ok(Some(Pop(h, Weight).0))
  }

  /** The empty queue satisfies the heap property. */
  lemma NewOrdered(size: nat)
    ensures Ordered(New<string>(size), Weight)
  {
  }

  /** Queueing the songs of a directory into a queue as large as the
      directory never overflows, and the queue then holds exactly the
      songs, in heap order. */
  lemma QueuedSongs(files: seq<string>)
    ensures var q := QueueAll(New(|files|), Songs(files));
      && q.Ok? && Ordered(q.value, Weight)
      && (forall x :: x in Held(q.value) <==> x.Some? && x.value in files && IsSong(x.value))
  {
    var songs := Songs(files);
    NewOrdered(|files|);
    QueueAllFacts(New(|files|), songs);
    var h := QueueAll(New(|files|), songs).value;
    assert Held(h) == SomeOf(songs);
    forall x
      ensures x in Held(h) <==> x.Some? && x.value in files && IsSong(x.value)
    {
      SomeOfHolds(songs, x);
    }
  }

  /** The handler throws exactly when two or more songs include one whose
      stem is not a byte number. */
  lemma ChooseSongFails(files: seq<string>)
    ensures ChooseSong(files).Err? <==> BadStem(Songs(files))
  {
    QueuedSongs(files);
  }

  /** Nothing is played exactly when the directory has no song. */
  lemma ChooseSongNone(files: seq<string>)
    ensures ChooseSong(files) == Ok(None) <==> (forall f :: f in files ==> !IsSong(f))
  {
    if forall f :: f in files ==> !IsSong(f) {
      NoSongNone(files);
    }
    if ChooseSong(files) == Ok(None) {
      NoneNoSong(files);
    }
  }

  lemma NoSongNone(files: seq<string>)
    requires forall f :: f in files ==> !IsSong(f)
    ensures ChooseSong(files) == Ok(None)
  {
    var songs := Songs(files);
    FirstIsMember(songs);
    assert QueueAll(New(|files|), songs) == Ok(New(|files|));
  }

  lemma FirstIsMember(s: seq<string>)
    ensures |s| == 0 || s[0] in s
  {
  }

  lemma NoneNoSong(files: seq<string>)
    requires ChooseSong(files) == Ok(None)
    ensures forall f :: f in files ==> !IsSong(f)
  {
    QueuedSongs(files);
    var h := QueueAll(New(|files|), Songs(files)).value;
    assert IsEmpty(h);
    IsEmptyIffNothingHeld(h);
    forall f | f in files
      ensures !IsSong(f)
    {
      assert Some(f) !in Held(h);
    }
  }

  /** The song played is a ".song" file of the directory with the lowest
      weight among them. */
  lemma ChooseSongLightest(files: seq<string>)
    requires ChooseSong(files).Ok? && ChooseSong(files).value.Some?
    ensures var f := ChooseSong(files).value.value;
      && f in files && IsSong(f)
      && (forall g :: g in files && IsSong(g) ==> Weight(f) <= Weight(g))
  {
    var songs := Songs(files);
    QueuedSongs(files);
    var h := QueueAll(New(|files|), songs).value;
    var f := Pop(h, Weight).0;
    assert ChooseSong(files).value.value == f;
    assert Some(f) in Held(h);
    forall g | g in files && IsSong(g)
      ensures Weight(f) <= Weight(g)
    {
      assert Some(g) in Held(h);
    }
  }

  /** When every song's stem is a byte number, the song played has the
      smallest of those numbers. */
  lemma ChooseSongByNumber(files: seq<string>, f: string)
    requires ChooseSong(files) == Ok(Some(f))
    requires forall g :: g in files && IsSong(g) ==> ParseByte(Stem(g)).Some?
    ensures forall g :: g in files && IsSong(g) ==>
              ParseByte(Stem(f)).Some? && ParseByte(Stem(f)).value <= ParseByte(Stem(g)).value
  {
    ChooseSongLightest(files);
  }
}
