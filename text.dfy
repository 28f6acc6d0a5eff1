/**
 * The parts of java.lang.String and java.lang.Character that the user
 * service relies on: the `\s` character class, trim(), toLowerCase(),
 * Character.toUpperCase, split("\\s+"), and the decimal rendering of an int.
 * Case mapping covers the ASCII letters only.
 */
module Text {

  // ---------------------------------------------------------------------
  // Characters
  // ---------------------------------------------------------------------

  /** Java's regular-expression class `\s`: ' ', '\t', '\n', '\u000B', '\f', '\r'. */
  predicate IsSpace(c: char) {
    c == ' ' || '\t' <= c <= '\r'
  }

  /** What String.trim() strips from either end: every character up to U+0020. */
  predicate IsTrimmable(c: char) {
    c <= ' '
  }

  predicate IsAsciiUpper(c: char) { 'A' <= c <= 'Z' }

  predicate IsAsciiLower(c: char) { 'a' <= c <= 'z' }

  predicate IsDigit(c: char) { '0' <= c <= '9' }

  /** Character.toUpperCase on the ASCII letters; every other character is left alone. */
  function ToUpperChar(c: char): (u: char)
    ensures IsAsciiLower(c) ==> IsAsciiUpper(u)
    ensures !IsAsciiLower(u)
    ensures IsSpace(u) == IsSpace(c) && IsTrimmable(u) == IsTrimmable(c)
  {
    if IsAsciiLower(c) then (c as int - 32) as char else c
  }

  /** Character.toLowerCase on the ASCII letters; every other character is left alone. */
  function ToLowerChar(c: char): (l: char)
    ensures IsAsciiUpper(c) ==> IsAsciiLower(l)
    ensures !IsAsciiUpper(l)
    ensures IsSpace(l) == IsSpace(c) && IsTrimmable(l) == IsTrimmable(c)
  {
    if IsAsciiUpper(c) then (c as int + 32) as char else c
  }

  /** Upper-casing a character that lower-casing leaves alone can be undone by lower-casing. */
  lemma LowerUndoesUpper(c: char)
    requires ToLowerChar(c) == c
    ensures ToLowerChar(ToUpperChar(c)) == c
  {
  }

  // ---------------------------------------------------------------------
  // trim() and toLowerCase()
  // ---------------------------------------------------------------------

  /** The first loop of String.trim(): drop leading characters <= ' '. */
  function TrimStart(s: string): (r: string)
    ensures |r| <= |s|
    ensures r == [] || !IsTrimmable(r[0])
    ensures forall k :: 0 <= k < |s| - |r| ==> IsTrimmable(s[k])
  {
    if s != [] && IsTrimmable(s[0]) then TrimStart(s[1..]) else s
  }

  /** The second loop of String.trim(): drop trailing characters <= ' '. */
  function TrimEnd(s: string): (r: string)
    ensures |r| <= |s|
    ensures r == [] || !IsTrimmable(r[|r| - 1])
    ensures forall k :: |r| <= k < |s| ==> IsTrimmable(s[k])
  {
    if s != [] && IsTrimmable(s[|s| - 1]) then TrimEnd(s[..|s| - 1]) else s
  }

  /** What the first loop keeps is a suffix of its input. */
  lemma {:induction false} TrimStartSuffix(s: string)
    ensures TrimStart(s) == s[|s| - |TrimStart(s)|..]
    decreases |s|
  {
    if s != [] && IsTrimmable(s[0]) {
      TrimStartSuffix(s[1..]);
      assert s[1..][|s| - 1 - |TrimStart(s)|..] == s[|s| - |TrimStart(s)|..];
    }
  }

  /** What the second loop keeps is a prefix of its input. */
  lemma {:induction false} TrimEndPrefix(s: string)
    ensures TrimEnd(s) == s[..|TrimEnd(s)|]
    decreases |s|
  {
    if s != [] && IsTrimmable(s[|s| - 1]) {
      TrimEndPrefix(s[..|s| - 1]);
      assert s[..|s| - 1][..|TrimEnd(s)|] == s[..|TrimEnd(s)|];
    }
  }

  /** String.trim(): the slice of s left after stripping characters <= ' ' from both ends. */
  function Trim(s: string): (r: string)
    ensures |r| <= |s|
    ensures r == [] || (!IsTrimmable(r[0]) && !IsTrimmable(r[|r| - 1]))
  {
    TrimEndPrefix(TrimStart(s));
    TrimEnd(TrimStart(s))
  }

  /** A prefix of a suffix is one slice of the whole. */
  lemma SliceOfSuffix(s: string, t: string, r: string)
    requires |t| <= |s| && t == s[|s| - |t|..]
    requires |r| <= |t| && r == t[..|r|]
    ensures r == s[|s| - |t|..|s| - |t| + |r|]
  {
  }

  /** What the second loop drops from the suffix left by the first is also at the end of the whole. */
  lemma TrailingOfSuffix(s: string, t: string, n: nat)
    requires |t| <= |s| && t == s[|s| - |t|..] && n <= |t|
    requires forall k :: n <= k < |t| ==> IsTrimmable(t[k])
    ensures forall k :: |s| - |t| + n <= k < |s| ==> IsTrimmable(s[k])
  {
    forall k | |s| - |t| + n <= k < |s| ensures IsTrimmable(s[k]) {
      assert s[k] == t[k - (|s| - |t|)];
    }
  }

  /** trim() keeps one contiguous slice of the input. */
  lemma TrimKept(s: string)
    ensures |s| - |TrimStart(s)| + |Trim(s)| <= |s|
    ensures Trim(s) == s[|s| - |TrimStart(s)|..|s| - |TrimStart(s)| + |Trim(s)|]
  {
    var t := TrimStart(s);
    var r := TrimEnd(t);
    TrimStartSuffix(s);
    TrimEndPrefix(t);
    SliceOfSuffix(s, t, r);
  }

  /** What trim() removes before and after the slice it keeps are characters <= ' '. */
  lemma TrimDropped(s: string)
    ensures var a, r := |s| - |TrimStart(s)|, Trim(s);
      && (forall k :: 0 <= k < a ==> IsTrimmable(s[k]))
      && (forall k :: a + |r| <= k < |s| ==> IsTrimmable(s[k]))
  {
    var t := TrimStart(s);
    var r := TrimEnd(t);
    TrimStartSuffix(s);
    TrailingOfSuffix(s, t, |r|);
  }

  /** A string made only of characters <= ' ' loses them all to the first loop. */
  lemma {:induction false} TrimStartAllTrimmable(s: string)
    requires forall k :: 0 <= k < |s| ==> IsTrimmable(s[k])
    ensures TrimStart(s) == []
    decreases |s|
  {
    if s != [] {
      TrimStartAllTrimmable(s[1..]);
    }
  }

  /** A string is left as it is by trim() exactly when neither end is <= ' '. */
  lemma TrimIdentity(s: string)
    ensures Trim(s) == s <==> (s == [] || (!IsTrimmable(s[0]) && !IsTrimmable(s[|s| - 1])))
  {
    if s != [] && !IsTrimmable(s[0]) && !IsTrimmable(s[|s| - 1]) {
      assert TrimStart(s) == s;
      assert TrimEnd(s) == s;
    }
  }

  /** trim() gives "" exactly when every character is <= ' '. */
  lemma TrimEmpty(s: string)
    ensures Trim(s) == [] <==> forall k :: 0 <= k < |s| ==> IsTrimmable(s[k])
  {
    TrimDropped(s);
    if forall k :: 0 <= k < |s| ==> IsTrimmable(s[k]) {
      TrimStartAllTrimmable(s);
    }
  }

  /** trim() of a trimmed non-empty string followed by one space removes just that space. */
  lemma TrimTrailingSpace(j: string)
    requires j != [] && !IsTrimmable(j[0]) && !IsTrimmable(j[|j| - 1])
    ensures Trim(j + " ") == j
  {
    var x := j + " ";
    assert TrimStart(x) == x;
    assert x[..|x| - 1] == j;
    TrimIdentity(j);
    assert TrimEnd(j) == j;
  }

  /** String.toLowerCase(), character by character. */
  function ToLower(s: string): (r: string)
    ensures |r| == |s|
    ensures forall k :: 0 <= k < |s| ==> r[k] == ToLowerChar(s[k])
  {
    seq(|s|, k requires 0 <= k < |s| => ToLowerChar(s[k]))
  }

  lemma ToLowerAppend(a: string, b: string)
    ensures ToLower(a + b) == ToLower(a) + ToLower(b)
  {
    assert ToLower(a + b) == ToLower(a) + ToLower(b);
  }

  // ---------------------------------------------------------------------
  // Words and split("\\s+")
  // ---------------------------------------------------------------------

  /** A token of split("\\s+") that the normaliser keeps: non-empty, no `\s` character. */
  predicate IsWord(w: string) {
    w != [] && forall k :: 0 <= k < |w| ==> !IsSpace(w[k])
  }

  predicate NoSpace(s: string) {
    forall k :: 0 <= k < |s| ==> !IsSpace(s[k])
  }

  /** The length of the run of non-`\s` characters at the start of s. */
  function WordLength(s: string): (n: nat)
    ensures n <= |s|
    ensures forall k :: 0 <= k < n ==> !IsSpace(s[k])
    ensures n < |s| ==> IsSpace(s[n])
  {
    if s == [] || IsSpace(s[0]) then 0 else 1 + WordLength(s[1..])
  }

  /** The maximal runs of non-`\s` characters of s, in order. */
  function Words(s: string): (ws: seq<string>)
    ensures forall i :: 0 <= i < |ws| ==> IsWord(ws[i])
    decreases |s|
  {
    if s == [] then []
    else if IsSpace(s[0]) then Words(s[1..])
    else
      var n := WordLength(s);
      [s[..n]] + Words(s[n..])
  }

  /** A property every character of s has, every character of its words has. */
  lemma {:induction false} WordsKeep(s: string, p: char -> bool)
    requires forall k :: 0 <= k < |s| ==> p(s[k])
    ensures forall i, k :: 0 <= i < |Words(s)| && 0 <= k < |Words(s)[i]| ==> p(Words(s)[i][k])
    decreases |s|
  {
    if s != [] {
      if IsSpace(s[0]) {
        WordsKeep(s[1..], p);
      } else {
        var n := WordLength(s);
        WordsKeep(s[n..], p);
        var ws := Words(s);
        forall i, k | 0 <= i < |ws| && 0 <= k < |ws[i]| ensures p(ws[i][k]) {
          if i == 0 {
            assert ws[0][k] == s[k];
          } else {
            assert ws[i] == Words(s[n..])[i - 1];
          }
        }
      }
    }
  }

  /**
   * String.split("\\s+") (limit 0): a string without a `\s` character comes
   * back whole; otherwise the pieces between runs of `\s`, with a leading ""
   * when s starts with `\s` and with trailing empty pieces removed.
   */
  function Split(s: string): (parts: seq<string>)
    ensures forall i :: 0 < i < |parts| ==> parts[i] != []
    ensures parts != [] && parts[0] == [] ==> s == [] || IsSpace(s[0])
    ensures (if parts != [] && parts[0] == [] then parts[1..] else parts) == Words(s)
  {
    if NoSpace(s) then WordsOfNoSpace(s); [s]
    else if Words(s) == [] then []
    else (if IsSpace(s[0]) then [""] else []) + Words(s)
  }

  /** The words, rejoined with exactly one ' ' between neighbours. */
  function Join(ws: seq<string>): (j: string)
  {
    if ws == [] then ""
    else if |ws| == 1 then ws[0]
    else ws[0] + " " + Join(ws[1..])
  }

  lemma {:induction false} WordLengthOfWord(w: string, t: string)
    requires IsWord(w)
    requires t == [] || IsSpace(t[0])
    ensures WordLength(w + t) == |w|
    decreases |w|
  {
    var x := w + t;
    if |w| > 1 {
      assert x[1..] == w[1..] + t;
      WordLengthOfWord(w[1..], t);
    } else {
      assert x[1..] == t;
    }
  }

  /** A string without a `\s` character is one word, or none when empty. */
  lemma WordsOfNoSpace(s: string)
    requires NoSpace(s)
    ensures Words(s) == if s == [] then [] else [s]
  {
    if s != [] {
      WordLengthOfWord(s, []);
      assert s + [] == s;
      assert s[|s|..] == [];
    }
  }

  predicate AllSpace(g: string) {
    forall k :: 0 <= k < |g| ==> IsSpace(g[k])
  }

  /** What lies around and between the words: runs of `\s`, non-empty between two words. */
  predicate Gaps(gs: seq<string>) {
    && |gs| >= 1
    && (forall i :: 0 <= i < |gs| ==> AllSpace(gs[i]))
    && (forall i :: 0 < i < |gs| - 1 ==> gs[i] != [])
  }

  /** gs[0] + ws[0] + gs[1] + ws[1] + ... + ws[n - 1] + gs[n]. */
  function Interleave(gs: seq<string>, ws: seq<string>): (s: string)
    requires |gs| == |ws| + 1
    decreases |ws|
  {
    if ws == [] then gs[0] else gs[0] + ws[0] + Interleave(gs[1..], ws[1..])
  }

  /** Behind an empty first gap, the interleaving starts with the first word. */
  lemma InterleaveStart(gs: seq<string>, ws: seq<string>)
    requires |gs| == |ws| + 1 && gs[0] == [] && ws != [] && ws[0] != []
    ensures Interleave(gs, ws) != [] && Interleave(gs, ws)[0] == ws[0][0]
  {
    var r := Interleave(gs[1..], ws[1..]);
    assert Interleave(gs, ws) == [] + ws[0] + r;
  }

  /** Leading `\s` characters add no word. */
  lemma {:induction false} WordsSkipSpace(g: string, t: string)
    requires AllSpace(g)
    ensures Words(g + t) == Words(t)
    decreases |g|
  {
    if g != [] {
      assert (g + t)[1..] == g[1..] + t;
      WordsSkipSpace(g[1..], t);
    } else {
      assert g + t == t;
    }
  }

  /** A word followed by nothing or by `\s` is the first word. */
  lemma WordsConsWord(w: string, t: string)
    requires IsWord(w) && (t == [] || IsSpace(t[0]))
    ensures Words(w + t) == [w] + Words(t)
  {
    WordLengthOfWord(w, t);
    assert (w + t)[..|w|] == w;
    assert (w + t)[|w|..] == t;
  }

  /** Making the first gap longer puts the extra text in front. */
  lemma InterleaveLead(c: string, gs: seq<string>, ws: seq<string>)
    requires |gs| == |ws| + 1
    ensures Interleave([c + gs[0]] + gs[1..], ws) == c + Interleave(gs, ws)
  {
    var hs := [c + gs[0]] + gs[1..];
    if ws != [] {
      assert hs[1..] == gs[1..];
      var r := Interleave(gs[1..], ws[1..]);
      assert (c + gs[0]) + ws[0] + r == c + (gs[0] + ws[0] + r);
    }
  }

  /** Words separated by gaps of `\s` are split back into exactly those words. */
  lemma {:induction false} WordsOfInterleave(gs: seq<string>, ws: seq<string>)
    requires |gs| == |ws| + 1 && Gaps(gs)
    requires forall i :: 0 <= i < |ws| ==> IsWord(ws[i])
    ensures Words(Interleave(gs, ws)) == ws
    decreases |ws|
  {
    if ws == [] {
      WordsSkipSpace(gs[0], []);
      assert gs[0] + [] == gs[0];
    } else {
      var rest := Interleave(gs[1..], ws[1..]);
      assert Gaps(gs[1..]);
      if |ws| > 1 {
        assert gs[1] != [];
      }
      WordsConsWord(ws[0], rest);
      assert gs[0] + ws[0] + rest == gs[0] + (ws[0] + rest);
      WordsSkipSpace(gs[0], ws[0] + rest);
      WordsOfInterleave(gs[1..], ws[1..]);
    }
  }

  /** A `\s` in front of a decomposed string joins its first gap. */
  lemma GapsLead(c: char, t: string, hs: seq<string>, ws: seq<string>)
    requires IsSpace(c) && |hs| == |ws| + 1 && Gaps(hs) && Interleave(hs, ws) == t
    ensures var gs := [[c] + hs[0]] + hs[1..]; |gs| == |ws| + 1 && Gaps(gs) && Interleave(gs, ws) == [c] + t
  {
    InterleaveLead([c], hs, ws);
  }

  /** An empty gap in front keeps the gaps well formed when the old first gap is not empty. */
  lemma GapsEmptyLead(hs: seq<string>)
    requires Gaps(hs) && (|hs| > 1 ==> hs[0] != [])
    ensures Gaps([[]] + hs)
  {
    var gs := [[]] + hs;
    forall i | 0 <= i < |gs| ensures AllSpace(gs[i]) {
      if i > 0 {
        assert gs[i] == hs[i - 1];
      }
    }
    forall i | 0 < i < |gs| - 1 ensures gs[i] != [] {
      assert gs[i] == hs[i - 1];
    }
  }

  /** A word behind an empty first gap comes first. */
  lemma InterleaveWordLead(w: string, hs: seq<string>, ws: seq<string>)
    requires |hs| == |ws| + 1
    ensures Interleave([[]] + hs, [w] + ws) == w + Interleave(hs, ws)
  {
    var gs, vs := [[]] + hs, [w] + ws;
    assert gs[0] == [] && gs[1..] == hs;
    assert vs[0] == w && vs[1..] == ws;
    calc {
      Interleave(gs, vs);
      gs[0] + vs[0] + Interleave(gs[1..], vs[1..]);
      [] + w + Interleave(hs, ws);
      { assert [] + w == w; }
      w + Interleave(hs, ws);
    }
  }

  /** A decomposed string that is empty or starts with `\s` cannot start with its first word. */
  lemma FirstGapBeforeSpace(hs: seq<string>, ws: seq<string>, t: string)
    requires |hs| == |ws| + 1 && Interleave(hs, ws) == t && (t == [] || IsSpace(t[0]))
    requires ws != [] && IsWord(ws[0])
    ensures hs[0] != []
  {
    if hs[0] == [] {
      InterleaveStart(hs, ws);
      assert false;
    }
  }

  /** A word in front of a decomposed string that starts with `\s`, or is empty, becomes its first word. */
  lemma GapsWord(w: string, t: string, hs: seq<string>, ws: seq<string>)
    requires IsWord(w) && (t == [] || IsSpace(t[0]))
    requires |hs| == |ws| + 1 && Gaps(hs) && Interleave(hs, ws) == t
    requires ws != [] ==> IsWord(ws[0])
    ensures var gs := [[]] + hs; Gaps(gs) && Interleave(gs, [w] + ws) == w + t
  {
    InterleaveWordLead(w, hs, ws);
    if ws != [] {
      FirstGapBeforeSpace(hs, ws, t);
    }
    GapsEmptyLead(hs);
  }

  /** The gaps of s: the runs of `\s` before, between and after its words. */
  function GapsOf(s: string): (gs: seq<string>)
    ensures |gs| >= 1
    decreases |s|
  {
    if s == [] then [[]]
    else if IsSpace(s[0]) then var hs := GapsOf(s[1..]); [[s[0]] + hs[0]] + hs[1..]
    else [[]] + GapsOf(s[WordLength(s)..])
  }

  /** GapsOf(s) are gaps that put the words of s back together into s. */
  lemma {:induction false} GapsOfDecompose(s: string)
    ensures |GapsOf(s)| == |Words(s)| + 1 && Gaps(GapsOf(s)) && Interleave(GapsOf(s), Words(s)) == s
    decreases |s|
  {
    if s == [] {
    } else if IsSpace(s[0]) {
      GapsOfDecompose(s[1..]);
      GapsLead(s[0], s[1..], GapsOf(s[1..]), Words(s[1..]));
      assert [s[0]] + s[1..] == s;
    } else {
      var n := WordLength(s);
      GapsOfDecompose(s[n..]);
      GapsWord(s[..n], s[n..], GapsOf(s[n..]), Words(s[n..]));
      assert s[..n] + s[n..] == s;
    }
  }

  /** Every string is its words with gaps of `\s` around and between them. */
  lemma WordsDecompose(s: string)
    ensures exists gs :: |gs| == |Words(s)| + 1 && Gaps(gs) && Interleave(gs, Words(s)) == s
  {
    GapsOfDecompose(s);
  }

  /**
   * split("\\s+") without its possible leading "" is characterised: ws is
   * the list of words of s exactly when s is the words of ws with runs of
   * `\s` around them and at least one `\s` between neighbours.
   */
  lemma WordsExactly(s: string, ws: seq<string>)
    ensures Words(s) == ws <==>
      && (forall i :: 0 <= i < |ws| ==> IsWord(ws[i]))
      && exists gs :: |gs| == |ws| + 1 && Gaps(gs) && Interleave(gs, ws) == s
  {
    if Words(s) == ws {
      WordsDecompose(s);
    }
    if (forall i :: 0 <= i < |ws| ==> IsWord(ws[i]))
      && exists gs :: |gs| == |ws| + 1 && Gaps(gs) && Interleave(gs, ws) == s {
      var gs :| |gs| == |ws| + 1 && Gaps(gs) && Interleave(gs, ws) == s;
      WordsOfInterleave(gs, ws);
    }
  }

  /** The first word of a string that starts outside `\s` starts with the same character. */
  lemma FirstWord(s: string)
    requires s != [] && !IsSpace(s[0])
    ensures Words(s) != [] && Words(s)[0] == s[..WordLength(s)] && Words(s)[0][0] == s[0]
  {
  }

  /** The last word of a string that ends outside `\s` ends with the same character. */
  lemma {:induction false} LastWord(s: string)
    requires s != [] && !IsSpace(s[|s| - 1])
    ensures Words(s) != []
    ensures var w := Words(s)[|Words(s)| - 1]; w[|w| - 1] == s[|s| - 1]
    decreases |s|
  {
    if IsSpace(s[0]) {
      var t := s[1..];
      assert t[|t| - 1] == s[|s| - 1];
      LastWord(t);
      assert Words(s) == Words(t);
    } else {
      var n := WordLength(s);
      var t := s[n..];
      assert Words(s) == [s[..n]] + Words(t);
      if n < |s| {
        assert t[|t| - 1] == s[|s| - 1];
        LastWord(t);
        assert Words(s)[|Words(s)| - 1] == Words(t)[|Words(t)| - 1];
      } else {
        assert Words(t) == [];
        assert Words(s)[|Words(s)| - 1] == s[..n];
      }
    }
  }

  /** Splitting a string of words joined by single spaces gives the words back. */
  lemma {:induction false} WordsOfJoin(ws: seq<string>)
    requires forall i :: 0 <= i < |ws| ==> IsWord(ws[i])
    ensures Words(Join(ws)) == ws
    decreases |ws|
  {
    if |ws| == 1 {
      WordsOfNoSpace(ws[0]);
    } else if |ws| > 1 {
      var rest := Join(ws[1..]);
      var x := ws[0] + " " + rest;
      var n := |ws[0]|;
      WordLengthOfWord(ws[0], " " + rest);
      assert x == ws[0] + (" " + rest);
      assert x[..n] == ws[0];
      assert x[n..] == " " + rest;
      assert (" " + rest)[1..] == rest;
      WordsOfJoin(ws[1..]);
    }
  }

  /** Joined words start with the first word's first character. */
  lemma JoinFirst(ws: seq<string>)
    requires ws != [] && ws[0] != []
    ensures Join(ws) != [] && Join(ws)[0] == ws[0][0]
  {
  }

  /** Joined words end with the last word's last character. */
  lemma {:induction false} JoinLast(ws: seq<string>)
    requires ws != [] && ws[|ws| - 1] != []
    ensures Join(ws) != []
    ensures Join(ws)[|Join(ws)| - 1] == ws[|ws| - 1][|ws[|ws| - 1]| - 1]
    decreases |ws|
  {
    if |ws| > 1 {
      assert ws[1..][|ws[1..]| - 1] == ws[|ws| - 1];
      JoinLast(ws[1..]);
    }
  }

  /** Join(ws + [w]) appends one space and w. */
  lemma {:induction false} JoinSnoc(ws: seq<string>, w: string)
    requires ws != []
    ensures Join(ws + [w]) == Join(ws) + " " + w
    decreases |ws|
  {
    var x := ws + [w];
    if |ws| == 1 {
      assert x[1..] == [w];
    } else {
      assert x[1..] == ws[1..] + [w];
      JoinSnoc(ws[1..], w);
    }
  }

  /** The pieces one after another, as a StringBuilder holds them after appending each in turn. */
  function Flatten(ps: seq<string>): (r: string)
    ensures ps == [] ==> r == []
  {
    if ps == [] then [] else Flatten(ps[..|ps| - 1]) + ps[|ps| - 1]
  }

  /** Appending one more piece appends its text. */
  lemma FlattenSnoc(ps: seq<string>, p: string)
    ensures Flatten(ps + [p]) == Flatten(ps) + p
  {
    assert (ps + [p])[..|ps|] == ps;
  }

  /** Flattening commutes with concatenation. */
  lemma {:induction false} FlattenAppend(a: seq<string>, b: seq<string>)
    ensures Flatten(a + b) == Flatten(a) + Flatten(b)
    decreases |b|
  {
    if b == [] {
      assert a + b == a;
    } else {
      var p := b[|b| - 1];
      var init := b[..|b| - 1];
      assert b == init + [p];
      assert a + b == (a + init) + [p];
      FlattenAppend(a, init);
      FlattenSnoc(a + init, p);
      FlattenSnoc(init, p);
    }
  }

  /**
   * In words joined by single spaces, every `\s` character is a ' ' that is
   * neither first nor last and whose neighbours are not `\s`.
   */
  predicate SingleSpaced(j: string)
  {
    forall i :: 0 <= i < |j| && IsSpace(j[i]) ==>
      j[i] == ' ' && 0 < i < |j| - 1 && !IsSpace(j[i - 1]) && !IsSpace(j[i + 1])
  }

  /** Words joined by single spaces are single-spaced. */
  lemma {:induction false} JoinSpacing(ws: seq<string>)
    requires forall i :: 0 <= i < |ws| ==> IsWord(ws[i])
    ensures SingleSpaced(Join(ws))
    decreases |ws|
  {
    if |ws| > 1 {
      var w := ws[0];
      var rest := Join(ws[1..]);
      JoinSpacing(ws[1..]);
      JoinFirst(ws[1..]);
      var j := Join(ws);
      assert j == w + " " + rest;
      forall i | 0 <= i < |j|
        ensures IsSpace(j[i]) ==>
          j[i] == ' ' && 0 < i < |j| - 1 && !IsSpace(j[i - 1]) && !IsSpace(j[i + 1])
      {
        if i < |w| {
          assert j[i] == w[i];
        } else if i == |w| {
          assert j[i + 1] == rest[0];
        } else {
          assert j[i] == rest[i - |w| - 1];
          if i - |w| - 1 > 0 {
            assert j[i - 1] == rest[i - |w| - 2];
          }
          if i < |j| - 1 {
            assert j[i + 1] == rest[i - |w|];
          }
        }
      }
    }
  }

  // ---------------------------------------------------------------------
  // Integer.toString for non-negative numbers, and its inverse
  // ---------------------------------------------------------------------

  function DigitChar(d: nat): (c: char)
    requires d < 10
    ensures IsDigit(c)
  {
    ('0' as int + d) as char
  }

  function DigitValue(c: char): (d: nat)
    requires IsDigit(c)
  {
    c as int - '0' as int
  }

  /** The decimal digits of n, most significant first, without leading zeros. */
  function NatToString(n: nat): (s: string)
    ensures s != []
    ensures forall k :: 0 <= k < |s| ==> IsDigit(s[k])
    ensures s[0] == '0' ==> n == 0
  {
    if n < 10 then [DigitChar(n)] else NatToString(n / 10) + [DigitChar(n % 10)]
  }

  /** The value of a string of decimal digits. */
  function StringToNat(s: string): (n: nat)
    requires forall k :: 0 <= k < |s| ==> IsDigit(s[k])
  {
    if s == [] then 0 else StringToNat(s[..|s| - 1]) * 10 + DigitValue(s[|s| - 1])
  }

  /** Reading back the decimal rendering of n gives n. */
  lemma {:induction false} NatToStringRoundTrip(n: nat)
    ensures StringToNat(NatToString(n)) == n
  {
    if n >= 10 {
      var s := NatToString(n);
      assert s[..|s| - 1] == NatToString(n / 10);
      NatToStringRoundTrip(n / 10);
    }
  }
}
