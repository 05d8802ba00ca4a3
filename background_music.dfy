/**
 * The logic of the background-music player: the shuffle that randomises the
 * playlist once at mount, the cyclic next/previous song arithmetic with its
 * guard against overlapping song changes, and the helper that turns a song's
 * path into a display title.
 */
module BackgroundMusic {
  import opened JsString

  /** `LOFI_SONGS`: the bundled songs, in declaration order. */
  const LofiSongs: seq<string> := [
    "./audio/lofi/lofi-background.mp3",
    "./audio/lofi/good-night-lofi-cozy-chill-music-160166.mp3",
    "./audio/lofi/lofi-piano-beat-305563.mp3"
  ]

  // ---------------------------------------------------------------------
  // shuffleArray
  // ---------------------------------------------------------------------

  /** `[s[i], s[j]] = [s[j], s[i]]` on a sequence. */
  function Swap(s: seq<string>, i: nat, j: nat): (r: seq<string>)
    requires i < |s| && j < |s|
    ensures |r| == |s|
  {
    s[i := s[j]][j := s[i]]
  }

  /** Exchanging two elements keeps the multiset of elements. */
  lemma SwapPermutes(s: seq<string>, i: nat, j: nat)
    requires i < |s| && j < |s|
    ensures multiset(Swap(s, i, j)) == multiset(s)
    ensures Swap(s, i, j)[i] == s[j] && Swap(s, i, j)[j] == s[i]
    ensures forall k :: 0 <= k < |s| && k != i && k != j ==> Swap(s, i, j)[k] == s[k]
  {
  }

  /**
   * The random indices of a run of the shuffle on `n` elements: step `t`
   * works on position `i = n - 1 - t`, which is at least 1, and picks an
   * index `j` with `0 <= j <= i`.
   */
  predicate StepsValid(n: nat, picks: seq<nat>)
  {
    forall t :: 0 <= t < |picks| ==> StepValid(n, t, picks[t])
  }

  /** Step `t` of a run on `n` elements may pick `j`. */
  predicate StepValid(n: nat, t: int, j: int)
  {
    1 <= n - 1 - t && j <= n - 1 - t
  }

  /** A prefix of a valid run of steps is valid. */
  lemma StepsValidPrefix(n: nat, picks: seq<nat>, m: nat)
    requires StepsValid(n, picks) && m <= |picks|
    ensures StepsValid(n, picks[..m])
  {
    var prefix := picks[..m];
    forall t | 0 <= t < |prefix| ensures StepValid(n, t, prefix[t]) {
      assert prefix[t] == picks[t];
    }
  }

  /**
   * What the loop of `shuffleArray` makes of `s` after the steps `picks`:
   * step `t` exchanges position `|s| - 1 - t` with position `picks[t]`.
   */
  function Shuffled(s: seq<string>, picks: seq<nat>): (r: seq<string>)
    requires StepsValid(|s|, picks)
    ensures |r| == |s|
    decreases |picks|
  {
    if picks == [] then s
    else
      var t := |picks| - 1;
      assert StepValid(|s|, t, picks[t]);
      StepsValidPrefix(|s|, picks, t);
      Swap(Shuffled(s, picks[..t]), |s| - 1 - t, picks[t])
  }

  /** Whatever indices the random source yields, the shuffle is a permutation of its input. */
  lemma {:induction false} ShuffledPermutes(s: seq<string>, picks: seq<nat>)
    requires StepsValid(|s|, picks)
    ensures multiset(Shuffled(s, picks)) == multiset(s)
    decreases |picks|
  {
    if picks != [] {
      var t := |picks| - 1;
      assert StepValid(|s|, t, picks[t]);
      StepsValidPrefix(|s|, picks, t);
      ShuffledPermutes(s, picks[..t]);
      SwapPermutes(Shuffled(s, picks[..t]), |s| - 1 - t, picks[t]);
    }
  }

  /**
   * A shuffle of fewer than two elements takes no step, so it returns its
   * input unchanged; and every run on a longer input takes `n - 1` steps.
   */
  lemma ShortInputsTakeNoStep(s: seq<string>, picks: seq<nat>)
    requires StepsValid(|s|, picks)
    ensures |s| <= 1 ==> picks == [] && Shuffled(s, picks) == s
    ensures |picks| <= (if |s| == 0 then 0 else |s| - 1)
  {
    if picks != [] {
      assert StepValid(|s|, 0, picks[0]);
      var t := |picks| - 1;
      assert StepValid(|s|, t, picks[t]);
    }
  }

  /**
   * `shuffleArray`: copies `a` and runs Fisher–Yates on the copy, from the
   * last position down to position 1, exchanging each position `i` with a
   * position `j` chosen in `0..i` (by `Math.random`, modelled as an
   * arbitrary choice). `picks` records the choices. The argument is left
   * as it was; the result is fresh and a permutation of it.
   */
  method ShuffleArray(a: array<string>) returns (r: array<string>, ghost picks: seq<nat>)
    ensures fresh(r)
    ensures a[..] == old(a[..])
    ensures r.Length == a.Length
    ensures |picks| == (if a.Length == 0 then 0 else a.Length - 1)
    ensures StepsValid(a.Length, picks)
    ensures r[..] == Shuffled(a[..], picks)
    ensures multiset(r[..]) == multiset(a[..])
    ensures a.Length <= 1 ==> r[..] == a[..]
  {
    r := new string[a.Length];
    forall k | 0 <= k < a.Length {
      r[k] := a[k];
    }
    assert r[..] == a[..];
    picks := [];
    var i := a.Length - 1;
    while i > 0
      invariant i == a.Length - 1 - |picks|
      invariant a.Length > 0 ==> 0 <= i
      invariant StepsValid(a.Length, picks)
      invariant r[..] == Shuffled(a[..], picks)
      decreases i
    {
      var j :| 0 <= j <= i;
      ghost var before := r[..];
      r[i], r[j] := r[j], r[i];
      assert r[..] == Swap(before, i, j);
      picks := picks + [j];
      assert picks[..|picks| - 1] + [j] == picks;
      i := i - 1;
    }
    ShuffledPermutes(a[..], picks);
  }

  // ---------------------------------------------------------------------
  // next / previous song
  // ---------------------------------------------------------------------

  /** `(currentSongIndex + 1) % playlist.length`. */
  function NextIndex(i: int, n: int): (r: int)
    requires n > 0
    ensures 0 <= i ==> 0 <= r < n
    ensures 0 <= i < n ==> r == if i == n - 1 then 0 else i + 1
  {
    JsRem(i + 1, n)
  }

  /** `(currentSongIndex - 1 + playlist.length) % playlist.length`. */
  function PrevIndex(i: int, n: int): (r: int)
    requires n > 0
    ensures 0 <= i ==> 0 <= r < n
    ensures 0 <= i < n ==> r == if i == 0 then n - 1 else i - 1
  {
    JsRem(i - 1 + n, n)
  }

  /** Previous undoes next and next undoes previous, on every valid index. */
  lemma PrevNextInverse(i: int, n: int)
    requires 0 <= i < n
    ensures PrevIndex(NextIndex(i, n), n) == i
    ensures NextIndex(PrevIndex(i, n), n) == i
  {
  }

  /** The index after `k` steps forward from `i`. */
  function StepForward(i: int, n: int, k: nat): (r: int)
    requires 0 <= i < n
    ensures 0 <= r < n
  {
    if k == 0 then i else NextIndex(StepForward(i, n, k - 1), n)
  }

  /** Stepping forward `k` times from the first song reaches song `k`, while `k < n`. */
  lemma {:induction false} StepForwardFromStart(n: int, k: nat)
    requires 0 <= k < n
    ensures StepForward(0, n, k) == k
  {
    if k > 0 {
      StepForwardFromStart(n, k - 1);
    }
  }

  /** Stepping forward through the whole playlist comes back to the first song. */
  lemma FullCycle(n: int)
    requires n > 0
    ensures StepForward(0, n, n) == 0
  {
    StepForwardFromStart(n, n - 1);
  }

  /**
   * The state of the player that the song-change handlers use: the playlist,
   * the current song's index and `isChangingSongRef`, the flag that blocks a
   * second change while one is under way.
   */
  class MusicPlayer {
    var playlist: seq<string>
    var currentSongIndex: int
    var isChangingSong: bool

    /** The index is a position of the playlist once there is one. */
    ghost predicate Valid()
      reads this
    {
      0 <= currentSongIndex && (playlist != [] ==> currentSongIndex < |playlist|)
    }

    /** The component's first render: no playlist yet, index 0, no change under way. */
    constructor()
      ensures Valid()
      ensures playlist == [] && currentSongIndex == 0 && !isChangingSong
    {
      playlist := [];
      currentSongIndex := 0;
      isChangingSong := false;
    }

    /** The mount effect: the playlist becomes a shuffle of `LOFI_SONGS`. */
    method InitPlaylist()
      requires Valid() && currentSongIndex < |LofiSongs|
      modifies this
      ensures Valid()
      ensures |playlist| == |LofiSongs| && multiset(playlist) == multiset(LofiSongs)
      ensures currentSongIndex == old(currentSongIndex) && isChangingSong == old(isChangingSong)
    {
      var songs := new string[|LofiSongs|](k requires 0 <= k < |LofiSongs| => LofiSongs[k]);
      assert songs[..] == LofiSongs;
      var shuffled;
      ghost var picks;
      shuffled, picks := ShuffleArray(songs);
      playlist := shuffled[..];
    }

    /**
     * `playNextSong`: does nothing with an empty playlist or while a change
     * is under way; otherwise raises the flag and moves to the next index,
     * wrapping from the last song to the first.
     */
    method PlayNextSong()
      requires Valid()
      modifies this
      ensures Valid()
      ensures playlist == old(playlist)
      ensures old(playlist == [] || isChangingSong) ==>
        currentSongIndex == old(currentSongIndex) && isChangingSong == old(isChangingSong)
      ensures !old(playlist == [] || isChangingSong) ==>
        isChangingSong && currentSongIndex == NextIndex(old(currentSongIndex), |playlist|)
    {
      if |playlist| == 0 || isChangingSong {
        return;
      }
      isChangingSong := true;
      var nextIndex := NextIndex(currentSongIndex, |playlist|);
      currentSongIndex := nextIndex;
    }

    /**
     * `playPreviousSong`: the same guard; otherwise raises the flag and moves
     * to the previous index, wrapping from the first song to the last.
     */
    method PlayPreviousSong()
      requires Valid()
      modifies this
      ensures Valid()
      ensures playlist == old(playlist)
      ensures old(playlist == [] || isChangingSong) ==>
        currentSongIndex == old(currentSongIndex) && isChangingSong == old(isChangingSong)
      ensures !old(playlist == [] || isChangingSong) ==>
        isChangingSong && currentSongIndex == PrevIndex(old(currentSongIndex), |playlist|)
    {
      if |playlist| == 0 || isChangingSong {
        return;
      }
      isChangingSong := true;
      var prevIndex := PrevIndex(currentSongIndex, |playlist|);
      currentSongIndex := prevIndex;
    }

    /**
     * The delayed callback of either change: whichever way loading and
     * playing the new song ends, the flag is lowered.
     */
    method FinishSongChange()
      requires Valid()
      modifies this
      ensures Valid()
      ensures !isChangingSong
      ensures playlist == old(playlist) && currentSongIndex == old(currentSongIndex)
    {
      isChangingSong := false;
    }
  }

  // ---------------------------------------------------------------------
  // getSongTitle
  // ---------------------------------------------------------------------

  /** `path.split("/").pop()`: the last `/`-separated piece. */
  function FileName(path: string): (name: string)
    ensures '/' !in name
  {
    Last(Split(path, '/'))
  }

  /** A position holding `c` with no `c` after it is the last index of `c`. */
  lemma LastIndexOfUnique(s: string, c: char, j: int)
    requires 0 <= j < |s| && s[j] == c && c !in s[j + 1..]
    ensures LastIndexOf(s, c) == j
  {
  }

  /** The file name is the text after the last `/` of the path (all of it when there is none). */
  lemma {:induction false} FileNameAfterLastSlash(path: string)
    ensures FileName(path) == path[LastIndexOf(path, '/') + 1..]
    decreases |path|
  {
    var i := IndexOf(path, '/');
    if i < 0 {
      FileNameWithoutSlash(path);
    } else {
      FileNameOfTail(path, i);
      FileNameAfterLastSlash(path[i + 1..]);
      TextAfterLastSlash(path, i);
    }
  }

  /** A path without `/` is its own file name. */
  lemma FileNameWithoutSlash(path: string)
    requires '/' !in path
    ensures FileName(path) == path
    ensures LastIndexOf(path, '/') == -1
  {
    assert Split(path, '/') == [path];
  }

  /** The text after the last `/` of a path is the text after the last `/` of what follows one of its `/`. */
  lemma TextAfterLastSlash(path: string, i: int)
    requires 0 <= i < |path| && path[i] == '/'
    ensures path[LastIndexOf(path, '/') + 1..] == path[i + 1..][LastIndexOf(path[i + 1..], '/') + 1..]
  {
    if '/' in path[i + 1..] {
      SlashInRest(path, i);
    } else {
      NoSlashInRest(path, i);
    }
  }

  /** When no `/` follows the one at `i`, it is the last one. */
  lemma NoSlashInRest(path: string, i: int)
    requires 0 <= i < |path| && path[i] == '/' && '/' !in path[i + 1..]
    ensures path[LastIndexOf(path, '/') + 1..] == path[i + 1..][LastIndexOf(path[i + 1..], '/') + 1..]
  {
    LastIndexOfUnique(path, '/', i);
    assert LastIndexOf(path[i + 1..], '/') + 1 == 0;
  }

  /** When a `/` follows the one at `i`, the last `/` of what follows is the last `/` of the path. */
  lemma SlashInRest(path: string, i: int)
    requires 0 <= i < |path| && '/' in path[i + 1..]
    ensures path[LastIndexOf(path, '/') + 1..] == path[i + 1..][LastIndexOf(path[i + 1..], '/') + 1..]
  {
    var rest := path[i + 1..];
    var l := LastIndexOf(rest, '/');
    assert path[i + 1 + l] == rest[l];
    assert path[i + 1 + l + 1..] == rest[l + 1..];
    LastIndexOfUnique(path, '/', i + 1 + l);
  }

  /** Past the first `/`, the file name of the path is the file name of what follows. */
  lemma FileNameOfTail(path: string, i: int)
    requires i == IndexOf(path, '/') && 0 <= i
    ensures FileName(path) == FileName(path[i + 1..])
  {
    var parts := Split(path[i + 1..], '/');
    assert Split(path, '/') == [path[..i]] + parts;
    assert Last([path[..i]] + parts) == Last(parts);
  }

  /**
   * Whether `/\.[^/.]+$/` matches `name` at position `p`: a dot, then at
   * least one character, running to the end, none of them a dot or a slash.
   */
  predicate ExtensionAt(name: string, p: int)
  {
    && 0 <= p < |name| - 1
    && name[p] == '.'
    && forall k :: p < k < |name| ==> name[k] != '.' && name[k] != '/'
  }

  /**
   * `name.replace(/\.[^/.]+$/, "")`: only the last dot can start a match,
   * so the text from the last dot on is dropped when it is a match.
   */
  function DropExtension(name: string): (stem: string)
  {
    var dot := LastIndexOf(name, '.');
    if 0 <= dot < |name| - 1 && '/' !in name[dot + 1..] then name[..dot] else name
  }

  /** `c` is absent from the tail of `s` from `from` on exactly when no position there holds it. */
  lemma NotInTail(s: string, c: char, from: int)
    requires 0 <= from <= |s|
    ensures c !in s[from..] <==> forall k :: from <= k < |s| ==> s[k] != c
  {
    if c in s[from..] {
      var k :| 0 <= k < |s[from..]| && s[from..][k] == c;
      assert s[from + k] == c;
    } else {
      forall k | from <= k < |s| ensures s[k] != c {
        assert s[k] == s[from..][k - from];
      }
    }
  }

  /** Where the pattern matches, `DropExtension` cuts the name there. */
  lemma DropExtensionAtMatch(name: string, p: int)
    requires ExtensionAt(name, p)
    ensures DropExtension(name) == name[..p]
  {
    NotInTail(name, '.', p + 1);
    LastIndexOfUnique(name, '.', p);
    NotInTail(name, '/', p + 1);
  }

  /** Where the pattern matches nowhere, `DropExtension` leaves the name whole. */
  lemma DropExtensionNoMatch(name: string)
    requires forall p :: !ExtensionAt(name, p)
    ensures DropExtension(name) == name
  {
    var dot := LastIndexOf(name, '.');
    if 0 <= dot < |name| - 1 && '/' !in name[dot + 1..] {
      NotInTail(name, '.', dot + 1);
      NotInTail(name, '/', dot + 1);
      assert ExtensionAt(name, dot);
    }
  }

  /** The name a path's title is built from: its file name without the extension. */
  function SongStem(path: string): (stem: string)
    ensures '/' !in stem
  {
    var name := FileName(path);
    var stem := DropExtension(name);
    assert stem <= name;
    stem
  }

  /** `word.charAt(0).toUpperCase() + word.slice(1)`. */
  function CapitaliseWord(word: string): (r: string)
    ensures |r| == |word|
  {
    if word == [] then [] else [ToUpperAscii(word[0])] + word[1..]
  }

  /** `.map(capitalise)` over the words. */
  function CapitaliseWords(words: seq<string>): (r: seq<string>)
    ensures |r| == |words|
    ensures forall k :: 0 <= k < |words| ==> r[k] == CapitaliseWord(words[k])
  {
    seq(|words|, k requires 0 <= k < |words| => CapitaliseWord(words[k]))
  }

  /** `s.split(" ").map(capitalise).join(" ")`. */
  function CapitaliseEachWord(s: string): string
  {
    Join(CapitaliseWords(Split(s, ' ')), ' ')
  }

  /**
   * Title case, stated character by character: a character that starts the
   * text or follows a space is upper-cased; every other one is kept.
   */
  function TitleCase(s: string): (r: string)
    ensures |r| == |s|
  {
    seq(|s|, k requires 0 <= k < |s| => if k == 0 || s[k - 1] == ' ' then ToUpperAscii(s[k]) else s[k])
  }

  /** Title case of a text without spaces capitalises its first character only. */
  lemma TitleCaseOneWord(s: string)
    requires ' ' !in s
    ensures TitleCase(s) == CapitaliseWord(s)
  {
    if s != [] {
      forall k | 0 <= k < |s| ensures TitleCase(s)[k] == CapitaliseWord(s)[k] {
        if k > 0 {
          assert s[k - 1] != ' ';
        }
      }
    }
  }

  /** Title case splits at a first space into the first word, the space and the title case of the rest. */
  lemma TitleCaseAtSpace(s: string, i: int)
    requires 0 <= i < |s| && s[i] == ' ' && ' ' !in s[..i]
    ensures TitleCase(s) == CapitaliseWord(s[..i]) + [' '] + TitleCase(s[i + 1..])
  {
    var head := s[..i];
    var rest := s[i + 1..];
    TitleCaseOneWord(head);
    var rhs := CapitaliseWord(head) + [' '] + TitleCase(rest);
    forall k | 0 <= k < |s| ensures TitleCase(s)[k] == rhs[k] {
      if k < i {
        assert TitleCase(head)[k] == TitleCase(s)[k];
      } else if k > i {
        assert rhs[k] == TitleCase(rest)[k - i - 1];
        assert rest[k - i - 1] == s[k];
        if k > i + 1 {
          assert rest[k - i - 2] == s[k - 1];
        }
      }
    }
  }

  /** Capitalising each space-separated word and joining them again is title case. */
  lemma {:induction false} CapitaliseEachWordIsTitleCase(s: string)
    ensures CapitaliseEachWord(s) == TitleCase(s)
    decreases |s|
  {
    var i := IndexOf(s, ' ');
    if i < 0 {
      CapitaliseOneWord(s);
      TitleCaseOneWord(s);
    } else {
      CapitaliseEachWordAtSpace(s, i);
      CapitaliseEachWordIsTitleCase(s[i + 1..]);
      TitleCaseAtSpace(s, i);
    }
  }

  /** A text without spaces is one word. */
  lemma CapitaliseOneWord(s: string)
    requires ' ' !in s
    ensures CapitaliseEachWord(s) == CapitaliseWord(s)
  {
    assert Split(s, ' ') == [s];
    assert CapitaliseWords([s]) == [CapitaliseWord(s)];
  }

  /** At the first space, the words are the first word, then the words of the rest. */
  lemma CapitaliseEachWordAtSpace(s: string, i: int)
    requires i == IndexOf(s, ' ') && 0 <= i
    ensures CapitaliseEachWord(s) == CapitaliseWord(s[..i]) + [' '] + CapitaliseEachWord(s[i + 1..])
  {
    var restParts := Split(s[i + 1..], ' ');
    var parts := [s[..i]] + restParts;
    assert Split(s, ' ') == parts;
    var words := CapitaliseWords(parts);
    assert words[1..] == CapitaliseWords(restParts);
    JoinCons(words[0], words[1..], ' ');
    assert [words[0]] + words[1..] == words;
  }

  /**
   * `getSongTitle`: the file name of the path without its extension, with
   * every `-` turned into a space and each space-separated word capitalised.
   */
  function GetSongTitle(path: string): string
  {
    CapitaliseEachWord(ReplaceAll(SongStem(path), '-', ' '))
  }

  /** Upper-casing neither makes nor removes a `-` or a `/`. */
  lemma UpperKeepsPunctuation(c: char)
    ensures ToUpperAscii(c) == '-' <==> c == '-'
    ensures ToUpperAscii(c) == '/' <==> c == '/'
  {
  }

  /**
   * A title is the title case of the stem with dashes made spaces: it is as
   * long as the stem and holds no `-` and no `/`.
   */
  lemma GetSongTitleSpec(path: string)
    ensures GetSongTitle(path) == TitleCase(ReplaceAll(SongStem(path), '-', ' '))
    ensures |GetSongTitle(path)| == |SongStem(path)|
    ensures '-' !in GetSongTitle(path) && '/' !in GetSongTitle(path)
  {
    var spaced := ReplaceAll(SongStem(path), '-', ' ');
    CapitaliseEachWordIsTitleCase(spaced);
    var title := TitleCase(spaced);
    assert '/' !in spaced by {
      forall k | 0 <= k < |spaced| ensures spaced[k] != '/' {
        assert SongStem(path)[k] != '/';
      }
    }
    forall k | 0 <= k < |title| ensures title[k] != '-' && title[k] != '/' {
      UpperKeepsPunctuation(spaced[k]);
    }
  }

}
