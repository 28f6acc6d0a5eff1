/**
 * The two string rules of the user service: normalizarNombre, which tidies
 * the spacing and capitalisation of a given name or surname, and the
 * temporary passwords built from the initials and a random number.
 */
module Nombres {
  import opened Wrappers
  import opened Errors
  import opened Text

  // ---------------------------------------------------------------------
  // normalizarNombre
  // ---------------------------------------------------------------------

  /** Upper-cases the first character of a word and keeps the rest. */
  function Capitalize(w: string): (r: string)
    ensures |r| == |w|
    ensures w != [] ==> r[0] == ToUpperChar(w[0])
    ensures forall k :: 1 <= k < |w| ==> r[k] == w[k]
  {
    seq(|w|, k requires 0 <= k < |w| => if k == 0 then ToUpperChar(w[0]) else w[k])
  }

  function CapitalizeAll(ws: seq<string>): (r: seq<string>)
    ensures |r| == |ws|
    ensures forall i :: 0 <= i < |ws| ==> r[i] == Capitalize(ws[i])
  {
    seq(|ws|, i requires 0 <= i < |ws| => Capitalize(ws[i]))
  }

  /**
   * The name normalizarNombre makes of a non-null string: trimmed, lower-cased,
   * cut into words at runs of `\s`, every word capitalised, words joined by one ' '.
   */
  function NormalizeName(s: string): (name: string)
  {
    Join(CapitalizeAll(Words(ToLower(Trim(s)))))
  }

  /** What the StringBuilder receives for one part of the split: nothing for "", else the capitalised part and a ' '. */
  function Piece(p: string): (piece: string)
  {
    if p == [] then "" else Capitalize(p) + " "
  }

  /** The piece of every part, in order. */
  function Pieces(parts: seq<string>): (r: seq<string>)
    ensures |r| == |parts|
    ensures forall i :: 0 <= i < |parts| ==> r[i] == Piece(parts[i])
  {
    seq(|parts|, i requires 0 <= i < |parts| => Piece(parts[i]))
  }

  /** The capitalised word is its upper-cased first character followed by the rest. */
  lemma CapitalizeHead(w: string)
    requires w != []
    ensures Capitalize(w) == [ToUpperChar(w[0])] + w[1..]
  {
  }

  /** The pieces of the first i + 1 parts. */
  lemma PiecesSnoc(parts: seq<string>, i: int)
    requires 0 <= i < |parts|
    ensures Pieces(parts[..i + 1]) == Pieces(parts[..i]) + [Piece(parts[i])]
  {
  }

  /**
   * The loop of normalizarNombre: for every part of the split, skip it when
   * empty, else append its upper-cased first character, the rest and a ' '.
   */
  method AppendParts(parts: seq<string>) returns (sb: string)
    ensures sb == Flatten(Pieces(parts))
  {
    sb := "";
    for i := 0 to |parts|
      invariant sb == Flatten(Pieces(parts[..i]))
    {
      var p := parts[i];
      PiecesSnoc(parts, i);
      FlattenSnoc(Pieces(parts[..i]), Piece(p));
      if p == [] {
        continue;
      }
      CapitalizeHead(p);
      sb := sb + [ToUpperChar(p[0])] + p[1..] + " ";
    }
    assert parts[..|parts|] == parts;
  }

  /** normalizarNombre: null stays null; otherwise the normalised name. */
  method NormalizarNombre(s: Option<string>) returns (r: Option<string>)
    ensures s == None ==> r == None
    ensures s != None ==> r == Some(NormalizeName(s.value))
  {
    if s == None {
      return None;
    }
    var t := ToLower(Trim(s.value));
    var parts := Split(t);
    var sb := AppendParts(parts);
    SplitAppendsWords(t);
    BuilderTrimmed(s.value);
    r := Some(Trim(sb));
  }

  lemma PiecesAppend(a: seq<string>, b: seq<string>)
    ensures Pieces(a + b) == Pieces(a) + Pieces(b)
  {
  }

  /** A leading empty part adds nothing to the builder. */
  lemma FlattenPiecesLead(lead: seq<string>, ws: seq<string>)
    requires lead == [] || lead == [""]
    ensures Flatten(Pieces(lead + ws)) == Flatten(Pieces(ws))
  {
    if lead == [] {
      assert lead + ws == ws;
    } else {
      var pl, pw := Pieces(lead), Pieces(ws);
      PiecesAppend(lead, ws);
      FlattenAppend(pl, pw);
      assert pl == [] + [""];
      FlattenSnoc([], "");
      assert Flatten(pl) + Flatten(pw) == Flatten(pw);
    }
  }

  /** The empty parts split("\\s+") may produce add nothing to the builder. */
  lemma SplitAppendsWords(t: string)
    ensures Flatten(Pieces(Split(t))) == Flatten(Pieces(Words(t)))
  {
    if NoSpace(t) {
      WordsOfNoSpace(t);
      if t == [] {
        FlattenPiecesLead([""], []);
        assert [""] + [] == Split(t);
      }
    } else if Words(t) != [] {
      var lead: seq<string> := if IsSpace(t[0]) then [""] else [];
      FlattenPiecesLead(lead, Words(t));
    }
  }

  /** Capitalising one more word appends its capitalised form. */
  lemma CapitalizeAllSnoc(ws: seq<string>, w: string)
    ensures CapitalizeAll(ws + [w]) == CapitalizeAll(ws) + [Capitalize(w)]
  {
  }

  /** The pieces of one more part. */
  lemma PiecesOfSnoc(parts: seq<string>, p: string)
    ensures Pieces(parts + [p]) == Pieces(parts) + [Piece(p)]
  {
  }

  /** The builder after one more word, given what it held before. */
  lemma BuilderStep(init: seq<string>, w: string, b: string)
    requires init != [] && w != []
    requires b == Flatten(Pieces(init)) && b == Join(CapitalizeAll(init)) + " "
    ensures Flatten(Pieces(init + [w])) == Join(CapitalizeAll(init + [w])) + " "
  {
    var c := Capitalize(w);
    var cs := CapitalizeAll(init);
    PiecesOfSnoc(init, w);
    FlattenSnoc(Pieces(init), c + " ");
    CapitalizeAllSnoc(init, w);
    JoinSnoc(cs, c);
    assert b + (c + " ") == (Join(cs) + " " + c) + " ";
  }

  /** The builder holds the joined capitalised words followed by one space. */
  lemma {:induction false} BuilderOfWords(ws: seq<string>)
    requires ws != []
    requires forall i :: 0 <= i < |ws| ==> ws[i] != []
    ensures Flatten(Pieces(ws)) == Join(CapitalizeAll(ws)) + " "
    decreases |ws|
  {
    var init, w := ws[..|ws| - 1], ws[|ws| - 1];
    assert ws == init + [w];
    if init == [] {
      var c := Capitalize(w);
      PiecesOfSnoc([], w);
      FlattenSnoc([], c + " ");
      CapitalizeAllSnoc([], w);
      assert [] + [w] == [w] && [] + [c] == [c];
      assert [] + (c + " ") == c + " ";
    } else {
      BuilderOfWords(init);
      BuilderStep(init, w, Flatten(Pieces(init)));
    }
  }

  /** After trim and toLowerCase, neither end of the text is <= ' '. */
  lemma PreparedEnds(s: string)
    ensures var t := ToLower(Trim(s));
      t == [] || (!IsTrimmable(t[0]) && !IsTrimmable(t[|t| - 1]))
  {
  }

  /** Capitalising keeps whether either end of a word is <= ' '. */
  lemma CapitalizeKeepsEnds(w: string)
    requires w != []
    ensures IsTrimmable(Capitalize(w)[0]) == IsTrimmable(w[0])
    ensures IsTrimmable(Capitalize(w)[|w| - 1]) == IsTrimmable(w[|w| - 1])
  {
  }

  /** A normalised name has neither end <= ' ', and is "" only when no word was found. */
  lemma NormalizedEnds(s: string)
    ensures var r := NormalizeName(s);
      r == [] || (!IsTrimmable(r[0]) && !IsTrimmable(r[|r| - 1]))
    ensures NormalizeName(s) == [] <==> ToLower(Trim(s)) == []
  {
    var t := ToLower(Trim(s));
    PreparedEnds(s);
    if t != [] {
      var ws := Words(t);
      FirstWord(t);
      LastWord(t);
      var first, last := ws[0], ws[|ws| - 1];
      assert first[0] == t[0] && last[|last| - 1] == t[|t| - 1];
      CapitalizeKeepsEnds(first);
      CapitalizeKeepsEnds(last);
      var cs := CapitalizeAll(ws);
      assert cs[0] == Capitalize(first) && cs[|cs| - 1] == Capitalize(last);
      JoinFirst(cs);
      JoinLast(cs);
    }
  }

  /** trim() of the builder's text is the normalised name. */
  lemma BuilderTrimmed(s: string)
    ensures Trim(Flatten(Pieces(Words(ToLower(Trim(s)))))) == NormalizeName(s)
  {
    var ws := Words(ToLower(Trim(s)));
    NormalizedEnds(s);
    if ws != [] {
      BuilderOfWords(ws);
      TrimTrailingSpace(NormalizeName(s));
    }
  }

  /** Every word of a normalised name starts outside a-z and continues outside A-Z. */
  predicate IsCapitalized(w: string)
  {
    w != [] && !IsAsciiLower(w[0]) && forall k :: 1 <= k < |w| ==> !IsAsciiUpper(w[k])
  }

  /** The characters of a lower-cased text are left alone by toLowerCase. */
  predicate IsLowered(s: string)
  {
    forall k :: 0 <= k < |s| ==> ToLowerChar(s[k]) == s[k]
  }

  lemma WordsOfLoweredAreLowered(t: string)
    requires IsLowered(t)
    ensures forall i :: 0 <= i < |Words(t)| ==> IsLowered(Words(t)[i])
  {
    WordsKeep(t, c => ToLowerChar(c) == c);
  }

  /** The capitalised words of a lower-cased text are words, and capitalised. */
  lemma CapitalizedWords(t: string)
    requires IsLowered(t)
    ensures forall i :: 0 <= i < |Words(t)| ==>
      IsWord(CapitalizeAll(Words(t))[i]) && IsCapitalized(CapitalizeAll(Words(t))[i])
  {
    var ws := Words(t);
    var cs := CapitalizeAll(ws);
    WordsOfLoweredAreLowered(t);
    forall i | 0 <= i < |cs| ensures IsWord(cs[i]) && IsCapitalized(cs[i]) {
      assert IsLowered(ws[i]);
      assert cs[i][0] == ToUpperChar(ws[i][0]);
      assert forall k :: 1 <= k < |cs[i]| ==> cs[i][k] == ws[i][k];
    }
  }

  /** toLowerCase leaves a lower-cased text alone. */
  lemma LowerIsLowered(s: string)
    ensures IsLowered(ToLower(s))
  {
  }

  /** A normalised name is left alone by String.trim(). */
  lemma NormalizeNameTrimmed(s: string)
    ensures Trim(NormalizeName(s)) == NormalizeName(s)
  {
    NormalizedEnds(s);
    TrimIdentity(NormalizeName(s));
  }

  /** Every `\s` character of a normalised name is a single ' ' between two non-`\s` characters. */
  lemma NormalizeNameSpacing(s: string)
    ensures SingleSpaced(NormalizeName(s))
  {
    var t := ToLower(Trim(s));
    LowerIsLowered(Trim(s));
    CapitalizedWords(t);
    JoinSpacing(CapitalizeAll(Words(t)));
  }

  /**
   * The words of a normalised name are the capitalised words of the trimmed,
   * lower-cased input, and each starts outside a-z and continues outside A-Z.
   */
  lemma NormalizeNameWords(s: string)
    ensures Words(NormalizeName(s)) == CapitalizeAll(Words(ToLower(Trim(s))))
    ensures forall i :: 0 <= i < |Words(NormalizeName(s))| ==> IsCapitalized(Words(NormalizeName(s))[i])
  {
    var t := ToLower(Trim(s));
    LowerIsLowered(Trim(s));
    CapitalizedWords(t);
    WordsOfJoin(CapitalizeAll(Words(t)));
  }

  /** A name is normalised to "" exactly when it is blank for String.trim(). */
  lemma NormalizeNameEmpty(s: string)
    ensures NormalizeName(s) == [] <==> forall k :: 0 <= k < |s| ==> IsTrimmable(s[k])
  {
    NormalizedEnds(s);
    TrimEmpty(s);
  }

  lemma LowerCapitalized(w: string)
    requires w != [] && IsLowered(w)
    ensures ToLower(Capitalize(w)) == w
  {
    LowerUndoesUpper(w[0]);
    assert ToLower(Capitalize(w))[0] == w[0];
  }

  /** Lower-casing the capitalised words joined by spaces gives back the joined words. */
  lemma {:induction false} LowerJoinCapitalized(ws: seq<string>)
    requires forall i :: 0 <= i < |ws| ==> IsWord(ws[i]) && IsLowered(ws[i])
    ensures ToLower(Join(CapitalizeAll(ws))) == Join(ws)
    decreases |ws|
  {
    var cs := CapitalizeAll(ws);
    if |ws| == 1 {
      LowerCapitalized(ws[0]);
    } else if |ws| > 1 {
      assert cs[1..] == CapitalizeAll(ws[1..]);
      LowerJoinCapitalized(ws[1..]);
      LowerCapitalized(ws[0]);
      ToLowerAppend(cs[0] + " ", Join(cs[1..]));
      ToLowerAppend(cs[0], " ");
    }
  }

  /** Normalising a normalised name changes nothing. */
  lemma NormalizeNameIdempotent(s: string)
    ensures NormalizeName(NormalizeName(s)) == NormalizeName(s)
  {
    var t := ToLower(Trim(s));
    var ws := Words(t);
    var r := NormalizeName(s);
    LowerIsLowered(Trim(s));
    WordsOfLoweredAreLowered(t);
    calc {
      NormalizeName(r);
      Join(CapitalizeAll(Words(ToLower(Trim(r)))));
      { NormalizeNameTrimmed(s); }
      Join(CapitalizeAll(Words(ToLower(r))));
      { LowerJoinCapitalized(ws); }
      Join(CapitalizeAll(Words(Join(ws))));
      { WordsOfJoin(ws); }
      Join(CapitalizeAll(ws));
    }
  }

  // ---------------------------------------------------------------------
  // Temporary passwords
  // ---------------------------------------------------------------------

  /** A value of random.nextInt(90). */
  type Draw = n: int | 0 <= n < 90

  /**
   * prefix + the upper-cased first character of the raw given name + that of
   * the raw surname + the decimal digits of 10 + draw; charAt(0) throws on an
   * empty name.
   */
  function GenerarContrasena(prefix: string, nombre: string, apellido: string, draw: Draw): (r: Result<string, Error>)
    ensures r.Failure? <==> nombre == [] || apellido == []
    ensures r.Failure? ==> r.error == StringIndexOutOfBounds
    ensures r.Success? ==>
      var p, n := r.value, |prefix|;
      && |p| == n + 4
      && p[..n] == prefix
      && p[n] == ToUpperChar(nombre[0]) && p[n + 1] == ToUpperChar(apellido[0])
      && IsDigit(p[n + 2]) && IsDigit(p[n + 3]) && p[n + 2] != '0'
      && StringToNat(p[n + 2..]) == 10 + draw
  {
    if nombre == [] || apellido == [] then Failure(StringIndexOutOfBounds)
    else
      NatToStringRoundTrip(10 + draw);
      var digits := NatToString(10 + draw);
      var p := prefix + [ToUpperChar(nombre[0]), ToUpperChar(apellido[0])] + digits;
      assert p[|prefix| + 2..] == digits;
      Success(p)
  }

  /** generarContrasenaUsuario: "User" + initials + 10..99. */
  function GenerarContrasenaUsuario(nombre: string, apellido: string, draw: Draw): (r: Result<string, Error>)
    ensures r.Success? <==> nombre != [] && apellido != []
    ensures r.Success? ==>
      && |r.value| == 8 && r.value[..4] == "User"
      && r.value[4] == ToUpperChar(nombre[0]) && r.value[5] == ToUpperChar(apellido[0])
      && (forall k :: 6 <= k < 8 ==> IsDigit(r.value[k]))
      && StringToNat(r.value[6..]) == 10 + draw
  {
    GenerarContrasena("User", nombre, apellido, draw)
  }

  /** generarContrasenaAdmin: "Admin" + initials + 10..99 (no caller in this core). */
  function GenerarContrasenaAdmin(nombre: string, apellido: string, draw: Draw): (r: Result<string, Error>)
    ensures r.Success? <==> nombre != [] && apellido != []
    ensures r.Success? ==>
      && |r.value| == 9 && r.value[..5] == "Admin"
      && r.value[5] == ToUpperChar(nombre[0]) && r.value[6] == ToUpperChar(apellido[0])
      && (forall k :: 7 <= k < 9 ==> IsDigit(r.value[k]))
      && StringToNat(r.value[7..]) == 10 + draw
  {
    GenerarContrasena("Admin", nombre, apellido, draw)
  }

  /** The password pattern ^User[A-Z][A-Z]\d{2}$. */
  predicate MatchesUserPattern(p: string)
  {
    |p| == 8 && p[..4] == "User" && IsAsciiUpper(p[4]) && IsAsciiUpper(p[5]) && IsDigit(p[6]) && IsDigit(p[7])
  }

  predicate IsAsciiLetter(c: char) { IsAsciiLower(c) || IsAsciiUpper(c) }

  /** When both raw names start with an ASCII letter, the user password has the documented shape. */
  lemma UserPasswordPattern(nombre: string, apellido: string, draw: Draw)
    requires nombre != [] && apellido != []
    requires IsAsciiLetter(nombre[0]) && IsAsciiLetter(apellido[0])
    ensures GenerarContrasenaUsuario(nombre, apellido, draw).Success?
    ensures MatchesUserPattern(GenerarContrasenaUsuario(nombre, apellido, draw).value)
  {
  }

  /**
   * The initials come from the raw input, not the normalised name: a name
   * typed with a leading blank is stored capitalised, but the blank is its
   * initial in the password, which then misses the documented pattern.
   */
  lemma RawInitial(nombre: string, apellido: string, draw: Draw)
    requires nombre != [] && apellido != [] && IsTrimmable(nombre[0])
    ensures var r := GenerarContrasenaUsuario(nombre, apellido, draw);
      r.Success? && r.value[4] == nombre[0] && !MatchesUserPattern(r.value)
    ensures var n := NormalizeName(nombre); n == [] || n[0] != nombre[0]
  {
    NormalizedEnds(nombre);
  }
}
