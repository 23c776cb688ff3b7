/**
 * The string primitives the digest relies on, with Python's meaning:
 * `str.isspace`, `str.strip`, `str.split()` (no argument), `sep.join`,
 * `str.lower` (as far as the ASCII keywords are concerned) and `in` on strings.
 */
module Text {
  import opened Wrappers

  /** Python's `str.isspace` for one character (the Unicode White_Space set Python uses). */
  predicate IsSpace(c: char) {
    || c == ' '
    || ('\t' <= c <= '\r')
    || ('\U{001C}' <= c <= '\U{001F}')
    || c == '\U{0085}' || c == '\U{00A0}' || c == '\U{1680}'
    || ('\U{2000}' <= c <= '\U{200A}')
    || c == '\U{2028}' || c == '\U{2029}' || c == '\U{202F}' || c == '\U{205F}' || c == '\U{3000}'
  }

  predicate AllSpace(s: string) {
    forall i :: 0 <= i < |s| ==> IsSpace(s[i])
  }

  /** A word as `str.split()` produces it: non-empty, no whitespace. */
  predicate IsToken(w: string) {
    w != [] && forall i :: 0 <= i < |w| ==> !IsSpace(w[i])
  }

  /** Neither starts nor ends with whitespace (what `strip` leaves). */
  predicate Trimmed(s: string) {
    s == [] || (!IsSpace(s[0]) && !IsSpace(s[|s| - 1]))
  }

  /** Python truthiness of an optional string: present and not "". */
  predicate Present(o: Option<string>) {
    o.Some? && o.value != ""
  }

  /** `s.lstrip()` */
  function LStrip(s: string): (r: string)
    ensures |r| <= |s| && r == s[|s| - |r|..]
    ensures AllSpace(s[..|s| - |r|])
    ensures r == [] || !IsSpace(r[0])
    decreases |s|
  {
    if s != [] && IsSpace(s[0]) then
      var r := LStrip(s[1..]);
      var pre, lead := s[1..][..|s| - 1 - |r|], s[..|s| - |r|];
      forall i | 0 <= i < |lead| ensures IsSpace(lead[i]) {
        if i > 0 {
          assert lead[i] == s[i] == pre[i - 1];
        } else {
          assert lead[i] == s[0];
        }
      }
      r
    else s
  }

  /** `s.rstrip()` */
  function RStrip(s: string): (r: string)
    ensures r <= s
    ensures AllSpace(s[|r|..])
    ensures r == [] || !IsSpace(r[|r| - 1])
    decreases |s|
  {
    if s != [] && IsSpace(s[|s| - 1]) then
      var r := RStrip(s[..|s| - 1]);
      var post, trail := s[..|s| - 1][|r|..], s[|r|..];
      forall i | 0 <= i < |trail| ensures IsSpace(trail[i]) {
        if i < |trail| - 1 {
          assert trail[i] == s[|r| + i] == post[i];
        } else {
          assert trail[i] == s[|s| - 1];
        }
      }
      r
    else s
  }

  /** `r` occurs in `s` at `i` with only whitespace before and after it. */
  predicate Surrounded(s: string, r: string, i: int) {
    OccursAt(s, r, i) && AllSpace(s[..i]) && AllSpace(s[i + |r|..])
  }

  /** `s.strip()`: the slice of `s` between its leading and trailing whitespace. */
  function Strip(s: string): (r: string)
    ensures exists i :: Surrounded(s, r, i)
    ensures Trimmed(r)
    ensures r == [] <==> AllSpace(s)
  {
    var l := LStrip(s);
    var r := RStrip(l);
    assert AllSpace(s[..|s| - |l|]);
    assert AllSpace(l[|r|..]);
    StripSound(s, l, r);
    r
  }

  /** What the two halves of `strip` together leave of `s`. */
  lemma StripSound(s: string, l: string, r: string)
    requires |l| <= |s| && l == s[|s| - |l|..] && AllSpace(s[..|s| - |l|])
    requires l == [] || !IsSpace(l[0])
    requires r <= l && AllSpace(l[|r|..])
    ensures Surrounded(s, r, |s| - |l|)
    ensures r == [] || !IsSpace(r[0])
    ensures r == [] <==> AllSpace(s)
  {
    var off := |s| - |l|;
    assert OccursAt(s, r, off);
    assert s[off + |r|..] == l[|r|..];
    if r == [] {
      assert l[|r|..] == l;
      assert s[..off] == s;
    } else {
      assert s[off] == r[0];
    }
  }

  /** Stripping trailing whitespace never cuts into a prefix that ends in a visible character. */
  lemma RStripKeepsVisiblePrefix(p: string, s: string)
    requires p <= s && p != [] && !IsSpace(p[|p| - 1])
    ensures p <= RStrip(s)
  {
    var r := RStrip(s);
    assert |r| >= |p|;
    assert r[..|p|] == s[..|p|] == p;
  }

  /**
   * A first line that begins and ends visibly survives `strip` together with
   * the line break after it (the break may be the one appended afterwards).
   */
  lemma StripKeepsFirstLine(h: string, s: string)
    requires h != [] && !IsSpace(h[0]) && !IsSpace(h[|h| - 1])
    requires h + "\n" <= s
    ensures h + "\n" <= Strip(s) + "\n"
  {
    assert LStrip(s) == s by { assert s[0] == h[0]; }
    var r := RStrip(s);
    assert Strip(s) == r;
    assert h <= s by { assert s[..|h|] == (h + "\n")[..|h|]; }
    RStripKeepsVisiblePrefix(h, s);
    LineOfPrefix(h, r, s);
  }

  /** A line of `s` that also starts its prefix `r` is still a line once `r` ends in a break. */
  lemma LineOfPrefix(h: string, r: string, s: string)
    requires h + "\n" <= s && h <= r <= s
    ensures h + "\n" <= r + "\n"
  {
    if |r| == |h| {
      assert r == h;
    } else {
      assert r[|h|] == '\n' by { assert r[|h|] == s[|h|] == (h + "\n")[|h|]; }
      assert (r + "\n")[..|h| + 1] == r[..|h| + 1] == h + "\n";
    }
  }

  /** The same for the first of several lines joined with line breaks. */
  lemma StripKeepsFirstOfLines(lines: seq<string>)
    requires |lines| >= 2
    requires lines[0] != [] && !IsSpace(lines[0][0]) && !IsSpace(lines[0][|lines[0]| - 1])
    ensures lines[0] + "\n" <= Strip(Join(lines, "\n")) + "\n"
  {
    StripKeepsFirstLine(lines[0], Join(lines, "\n"));
  }

  /** Length of the run of non-whitespace characters that starts `s`. */
  function RunLength(s: string): (n: nat)
    requires s != [] && !IsSpace(s[0])
    ensures 1 <= n <= |s|
    ensures forall i :: 0 <= i < n ==> !IsSpace(s[i])
    ensures n == |s| || IsSpace(s[n])
  {
    if |s| == 1 || IsSpace(s[1]) then 1 else 1 + RunLength(s[1..])
  }

  /** The run length is the first whitespace position (or the end). */
  lemma {:induction false} RunLengthIs(s: string, m: nat)
    requires s != [] && !IsSpace(s[0])
    requires 1 <= m <= |s|
    requires forall i :: 0 <= i < m ==> !IsSpace(s[i])
    requires m == |s| || IsSpace(s[m])
    ensures RunLength(s) == m
  {
    if m > 1 {
      RunLengthIs(s[1..], m - 1);
    }
  }

  /** `s.split()`: the maximal whitespace-free runs of `s`, in order. */
  function Words(s: string): (ws: seq<string>)
    ensures forall k :: 0 <= k < |ws| ==> IsToken(ws[k])
    ensures ws == [] <==> AllSpace(s)
    decreases |s|
  {
    if s == [] then []
    else if IsSpace(s[0]) then
      var ws := Words(s[1..]);
      assert AllSpace(s[1..]) ==> AllSpace(s) by {
        if AllSpace(s[1..]) {
          forall i | 1 <= i < |s| ensures IsSpace(s[i]) { assert s[i] == s[1..][i - 1]; }
        }
      }
      ws
    else
      var n := RunLength(s);
      [s[..n]] + Words(s[n..])
  }

  /**
   * The text `gaps[0] + ws[0] + gaps[1] + ws[1] + ... + ws[n-1] + gaps[n]`:
   * the words with the stretches of text around and between them.
   */
  function Interleave(gaps: seq<string>, ws: seq<string>): string
    requires |gaps| == |ws| + 1
    decreases |ws|
  {
    if ws == [] then gaps[0] else gaps[0] + ws[0] + Interleave(gaps[1..], ws[1..])
  }

  /**
   * `gaps` fit around `ws` as `split` sees whitespace: every gap is
   * whitespace only, and the gaps between two words are not empty.
   */
  predicate Separates(gaps: seq<string>, ws: seq<string>) {
    && |gaps| == |ws| + 1
    && (forall i :: 0 <= i < |gaps| ==> AllSpace(gaps[i]))
    && (forall i :: 0 < i < |ws| ==> gaps[i] != [])
  }

  /** Leading whitespace does not change the words. */
  lemma {:induction false} WordsSkipsSpace(g: string, s: string)
    requires AllSpace(g)
    ensures Words(g + s) == Words(s)
    decreases |g|
  {
    if g != [] {
      assert (g + s)[0] == g[0] && (g + s)[1..] == g[1..] + s;
      WordsSkipsSpace(g[1..], s);
    } else {
      assert g + s == s;
    }
  }

  /**
   * Tokens laid out with whitespace gaps, non-empty between neighbours,
   * split back into exactly those tokens.
   */
  lemma {:induction false} WordsOfInterleave(gaps: seq<string>, ws: seq<string>)
    requires Separates(gaps, ws)
    requires forall k :: 0 <= k < |ws| ==> IsToken(ws[k])
    ensures Words(Interleave(gaps, ws)) == ws
    decreases |ws|
  {
    if ws == [] {
      WordsSkipsSpace(gaps[0], []);
      assert gaps[0] + [] == gaps[0];
    } else {
      var rest := Interleave(gaps[1..], ws[1..]);
      WordsOfInterleave(gaps[1..], ws[1..]);
      assert rest == [] || IsSpace(rest[0]) by {
        if |ws| > 1 {
          assert gaps[1] != [] && rest[0] == gaps[1][0];
        } else {
          assert rest == gaps[1];
        }
      }
      WordsAfterToken(ws[0], rest);
      assert gaps[0] + ws[0] + rest == gaps[0] + (ws[0] + rest);
      WordsSkipsSpace(gaps[0], ws[0] + rest);
    }
  }

  /**
   * Every text is its words laid out with whitespace gaps between and around
   * them, non-empty between neighbours: the words are the maximal
   * whitespace-free runs of the text, in order.
   */
  lemma {:induction false} WordsGaps(s: string) returns (gaps: seq<string>)
    ensures Separates(gaps, Words(s))
    ensures Interleave(gaps, Words(s)) == s
    decreases |s|
  {
    if s == [] {
      gaps := [[]];
    } else if IsSpace(s[0]) {
      var g := WordsGaps(s[1..]);
      gaps := GapsAfterSpace(s, g);
    } else {
      var n := RunLength(s);
      var g := WordsGaps(s[n..]);
      gaps := GapsAfterRun(s, g);
    }
  }

  /** A leading whitespace character joins the first gap. */
  lemma GapsAfterSpace(s: string, g: seq<string>) returns (gaps: seq<string>)
    requires s != [] && IsSpace(s[0])
    requires Separates(g, Words(s[1..])) && Interleave(g, Words(s[1..])) == s[1..]
    ensures Separates(gaps, Words(s)) && Interleave(gaps, Words(s)) == s
  {
    var ws := Words(s[1..]);
    assert Words(s) == ws;
    gaps := [[s[0]] + g[0]] + g[1..];
    AllSpaceConcat([s[0]], g[0]);
    assert forall i :: 0 < i < |gaps| ==> gaps[i] == g[i];
    InterleavePrepend([s[0]], g, ws);
    assert s == [s[0]] + s[1..];
  }

  /** Text put before the first gap comes first in the interleaving. */
  lemma InterleavePrepend(c: string, g: seq<string>, ws: seq<string>)
    requires |g| == |ws| + 1
    ensures Interleave([c + g[0]] + g[1..], ws) == c + Interleave(g, ws)
  {
    var gaps := [c + g[0]] + g[1..];
    assert gaps[0] == c + g[0] && gaps[1..] == g[1..];
    if ws != [] {
      assert c + g[0] + ws[0] + Interleave(g[1..], ws[1..]) == c + (g[0] + ws[0] + Interleave(g[1..], ws[1..]));
    }
  }

  lemma AllSpaceConcat(a: string, b: string)
    requires AllSpace(a) && AllSpace(b)
    ensures AllSpace(a + b)
  {
    forall i | 0 <= i < |a + b| ensures IsSpace((a + b)[i]) {
      if i >= |a| { assert (a + b)[i] == b[i - |a|]; }
    }
  }

  /** A leading run of visible characters is the first word, after an empty gap. */
  lemma GapsAfterRun(s: string, g: seq<string>) returns (gaps: seq<string>)
    requires s != [] && !IsSpace(s[0])
    requires Separates(g, Words(s[RunLength(s)..]))
    requires Interleave(g, Words(s[RunLength(s)..])) == s[RunLength(s)..]
    ensures Separates(gaps, Words(s)) && Interleave(gaps, Words(s)) == s
  {
    var n := RunLength(s);
    var w, rest := s[..n], s[n..];
    var tail := Words(rest);
    WordsOfRun(s);
    assert Words(s) == [w] + tail;
    if tail != [] {
      FirstGapNonEmpty(rest, g, tail);
    }
    gaps := WordFirst(g, w, tail);
    assert s == w + rest;
  }

  /** Gaps for a word put in front of words laid out with gaps `g`. */
  lemma WordFirst(g: seq<string>, w: string, ws: seq<string>) returns (gaps: seq<string>)
    requires Separates(g, ws) && (ws != [] ==> g[0] != [])
    ensures Separates(gaps, [w] + ws) && Interleave(gaps, [w] + ws) == w + Interleave(g, ws)
  {
    gaps := [[]] + g;
    SeparatesWordFirst(g, w, ws);
    InterleaveWordFirst(w, g, ws);
  }

  /** A text starting with a visible character starts with its first run as a word. */
  lemma WordsOfRun(s: string)
    requires s != [] && !IsSpace(s[0])
    ensures Words(s) == [s[..RunLength(s)]] + Words(s[RunLength(s)..])
  {
  }

  /** An empty gap before a new first word keeps the gaps separating. */
  lemma SeparatesWordFirst(g: seq<string>, w: string, ws: seq<string>)
    requires Separates(g, ws) && (ws != [] ==> g[0] != [])
    ensures Separates([[]] + g, [w] + ws)
  {
    var gaps := [[]] + g;
    assert forall i :: 0 < i < |gaps| ==> gaps[i] == g[i - 1];
  }

  /** A word laid out after an empty gap comes first. */
  lemma InterleaveWordFirst(w: string, g: seq<string>, ws: seq<string>)
    requires |g| == |ws| + 1
    ensures Interleave([[]] + g, [w] + ws) == w + Interleave(g, ws)
  {
    var gaps, words := [[]] + g, [w] + ws;
    assert gaps[1..] == g && words[1..] == ws;
    InterleaveParts(gaps, words, w, g, ws);
  }

  /** `Interleave` unfolded once, for a first gap that is empty. */
  lemma InterleaveParts(gaps: seq<string>, words: seq<string>, w: string, g: seq<string>, ws: seq<string>)
    requires |g| == |ws| + 1 && |gaps| == |words| + 1 && words != []
    requires gaps[0] == [] && words[0] == w && gaps[1..] == g && words[1..] == ws
    ensures Interleave(gaps, words) == w + Interleave(g, ws)
  {
    assert [] + w == w;
  }

  /** A text that starts with whitespace and has a word has a non-empty first gap. */
  lemma FirstGapNonEmpty(t: string, g: seq<string>, ws: seq<string>)
    requires |g| == |ws| + 1 && ws != [] && IsToken(ws[0])
    requires t == Interleave(g, ws) && t != [] && IsSpace(t[0])
    ensures g[0] != []
  {
    assert t == g[0] + (ws[0] + Interleave(g[1..], ws[1..]));
    assert !IsSpace((ws[0] + Interleave(g[1..], ws[1..]))[0]);
  }

  /**
   * `split` characterised: `ws` are the words of `s` exactly when they are
   * tokens that, with whitespace gaps non-empty between neighbours, make up `s`.
   */
  lemma WordsCharacterized(s: string, ws: seq<string>)
    ensures Words(s) == ws <==>
              (forall k :: 0 <= k < |ws| ==> IsToken(ws[k])) &&
              exists gaps :: Separates(gaps, ws) && Interleave(gaps, ws) == s
  {
    if Words(s) == ws {
      var gaps := WordsGaps(s);
    }
    if (forall k :: 0 <= k < |ws| ==> IsToken(ws[k])) && exists gaps :: Separates(gaps, ws) && Interleave(gaps, ws) == s {
      var gaps :| Separates(gaps, ws) && Interleave(gaps, ws) == s;
      WordsOfInterleave(gaps, ws);
    }
  }

  /** `sep.join(ws)` */
  function Join(ws: seq<string>, sep: string): string
    decreases |ws|
  {
    if |ws| == 0 then ""
    else if |ws| == 1 then ws[0]
    else ws[0] + sep + Join(ws[1..], sep)
  }

  /** `ws[:n]` */
  function Take<T>(ws: seq<T>, n: nat): (r: seq<T>)
    ensures r <= ws
    ensures |r| == if |ws| <= n then |ws| else n
  {
    if |ws| <= n then ws else ws[..n]
  }

  /** Splitting a token followed by whitespace (or nothing) yields the token first. */
  lemma {:induction false} WordsAfterToken(w: string, rest: string)
    requires IsToken(w)
    requires rest == [] || IsSpace(rest[0])
    ensures Words(w + rest) == [w] + Words(rest)
  {
    var s := w + rest;
    RunLengthIs(s, |w|);
    var n := RunLength(s);
    assert s[..n] == w;
    assert s[n..] == rest;
  }

  /** Joining tokens with single spaces and splitting again gives the tokens back. */
  lemma {:induction false} WordsOfJoin(ws: seq<string>)
    requires forall k :: 0 <= k < |ws| ==> IsToken(ws[k])
    ensures Words(Join(ws, " ")) == ws
    decreases |ws|
  {
    if |ws| == 0 {
    } else if |ws| == 1 {
      WordsAfterToken(ws[0], "");
      assert ws[0] + "" == ws[0];
    } else {
      var tail := Join(ws[1..], " ");
      WordsOfJoin(ws[1..]);
      assert Join(ws, " ") == ws[0] + (" " + tail);
      WordsAfterToken(ws[0], " " + tail);
      assert (" " + tail)[1..] == tail;
    }
  }

  /**
   * `s` is a run of tokens separated by single ' ' characters: no leading,
   * trailing or doubled space, and no whitespace other than ' '.
   */
  predicate SingleSpaced(s: string) {
    && Trimmed(s)
    && (forall i :: 0 <= i < |s| && IsSpace(s[i]) ==> s[i] == ' ')
    && (forall i :: 0 <= i < |s| - 1 && IsSpace(s[i]) ==> !IsSpace(s[i + 1]))
  }

  /** Joining tokens with single spaces gives a single-spaced string, empty only for no tokens. */
  lemma {:induction false} JoinSingleSpaced(ws: seq<string>)
    requires forall k :: 0 <= k < |ws| ==> IsToken(ws[k])
    ensures SingleSpaced(Join(ws, " "))
    ensures Join(ws, " ") == [] <==> ws == []
    decreases |ws|
  {
    if |ws| >= 2 {
      var w := ws[0];
      var tail := Join(ws[1..], " ");
      JoinSingleSpaced(ws[1..]);
      var s := Join(ws, " ");
      assert s == w + " " + tail;
      forall i | 0 <= i < |s| && IsSpace(s[i]) ensures s[i] == ' ' {
        if i > |w| { assert s[i] == tail[i - |w| - 1]; }
      }
      forall i | 0 <= i < |s| - 1 && IsSpace(s[i]) ensures !IsSpace(s[i + 1]) {
        if i < |w| {
        } else if i == |w| {
          assert s[i + 1] == tail[0];
        } else {
          assert s[i] == tail[i - |w| - 1];
          assert s[i + 1] == tail[i - |w|];
        }
      }
      assert s[|s| - 1] == tail[|tail| - 1];
    }
  }

  /** Python's `str.lower` on one character, restricted to ASCII letters. */
  function LowerChar(c: char): (d: char)
    ensures 'A' <= c <= 'Z' ==> d as int == c as int + 32
    ensures !('A' <= c <= 'Z') ==> d == c
  {
    if 'A' <= c <= 'Z' then (c as int + 32) as char else c
  }

  /** `s.lower()` (ASCII letters; see README for why that suffices for ASCII keywords). */
  function Lower(s: string): (r: string)
    ensures |r| == |s|
    ensures forall i :: 0 <= i < |s| ==> r[i] == LowerChar(s[i])
  {
    seq(|s|, i requires 0 <= i < |s| => LowerChar(s[i]))
  }

  /** `needle` occurs in `haystack` starting at offset `i`. */
  predicate OccursAt(haystack: string, needle: string, i: int) {
    0 <= i <= |haystack| - |needle| && haystack[i..i + |needle|] == needle
  }

  /** Python's `needle in haystack` for strings. */
  predicate Contains(haystack: string, needle: string)
    decreases |haystack|
  {
    if needle <= haystack then true
    else if haystack == [] then false
    else Contains(haystack[1..], needle)
  }

  /** `Contains` holds exactly when the needle occurs at some offset. */
  lemma {:induction false} ContainsAt(haystack: string, needle: string)
    ensures Contains(haystack, needle) <==> exists i :: OccursAt(haystack, needle, i)
    decreases |haystack|
  {
    if needle <= haystack {
      assert OccursAt(haystack, needle, 0);
    } else if haystack == [] {
    } else {
      var tail := haystack[1..];
      ContainsAt(tail, needle);
      if exists i :: OccursAt(haystack, needle, i) {
        var i :| OccursAt(haystack, needle, i);
        assert i != 0 by { assert haystack[..|needle|] == haystack[0..0 + |needle|]; }
        OccursInTail(haystack, needle, i);
      }
      if Contains(tail, needle) {
        var i :| OccursAt(tail, needle, i);
        OccursAfterHead(haystack, needle, i);
      }
    }
  }

  /** An occurrence past the first position is an occurrence in the tail. */
  lemma OccursInTail(haystack: string, needle: string, i: int)
    requires haystack != [] && i != 0 && OccursAt(haystack, needle, i)
    ensures OccursAt(haystack[1..], needle, i - 1)
  {
    assert haystack[1..][i - 1..i - 1 + |needle|] == haystack[i..i + |needle|];
  }

  /** An occurrence in the tail is an occurrence one position further on. */
  lemma OccursAfterHead(haystack: string, needle: string, i: int)
    requires haystack != [] && OccursAt(haystack[1..], needle, i)
    ensures OccursAt(haystack, needle, i + 1)
  {
    assert haystack[i + 1..i + 1 + |needle|] == haystack[1..][i..i + |needle|];
  }

  /** Lowercasing works character by character, so it distributes over concatenation. */
  lemma LowerConcat(x: string, y: string)
    ensures Lower(x + y) == Lower(x) + Lower(y)
  {
    assert forall i :: 0 <= i < |x| ==> (x + y)[i] == x[i];
    assert forall i :: |x| <= i < |x| + |y| ==> (x + y)[i] == y[i - |x|];
  }

  /** Lowercasing a slice is slicing the lowercased string. */
  lemma LowerSlice(s: string, i: nat, j: nat)
    requires i <= j <= |s|
    ensures Lower(s[i..j]) == Lower(s)[i..j]
  {
    assert forall p :: 0 <= p < j - i ==> s[i..j][p] == s[i + p];
  }

  /** An occurrence survives lowercasing: the lowercased needle occurs in the lowercased text. */
  lemma LowerContains(s: string, needle: string)
    requires Contains(s, needle)
    ensures Contains(Lower(s), Lower(needle))
  {
    ContainsAt(s, needle);
    var i :| OccursAt(s, needle, i);
    var n := |needle|;
    forall j | 0 <= j < n ensures Lower(s)[i..i + n][j] == Lower(needle)[j] {
      assert s[i..i + n][j] == s[i + j];
    }
    assert Lower(s)[i..i + n] == Lower(needle);
    ContainsAt(Lower(s), Lower(needle));
    assert OccursAt(Lower(s), Lower(needle), i);
  }

  /** A string containing the needle on either side of a concatenation contains it in the whole. */
  lemma ContainsConcat(x: string, y: string, needle: string)
    requires Contains(x, needle) || Contains(y, needle)
    ensures Contains(x + y, needle)
  {
    var n := |needle|;
    var i: int;
    if Contains(x, needle) {
      ContainsAt(x, needle);
      var j :| OccursAt(x, needle, j);
      assert (x + y)[j..j + n] == x[j..j + n];
      i := j;
    } else {
      ContainsAt(y, needle);
      var j :| OccursAt(y, needle, j);
      assert (x + y)[|x| + j..|x| + j + n] == y[j..j + n];
      i := |x| + j;
    }
    assert OccursAt(x + y, needle, i);
    ContainsAt(x + y, needle);
  }
}
