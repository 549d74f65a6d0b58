/** Splitting and joining of names: src/Common/Utils.cc and the composite addresses of
    src/Common/Address.cc. */
module Names {

  // ---- Pieces between delimiters ----

  /** The position of the first delimiter, or the length of s. */
  function Find(s: string, d: char): (i: nat)
    ensures i <= |s| && d !in s[..i]
    ensures i < |s| ==> s[i] == d
  {
    if s == [] || s[0] == d then 0 else
      var j := Find(s[1..], d);
      assert s[..1 + j] == [s[0]] + s[1..][..j];
      1 + j
  }

  /** Everything between delimiters; a trailing delimiter is followed by an empty piece. */
  function Pieces(s: string, d: char): (ps: seq<string>)
    ensures |ps| > 0
    decreases |s|
  {
    var i := Find(s, d);
    if i == |s| then [s] else [s[..i]] + Pieces(s[i + 1..], d)
  }

  function Unite(ps: seq<string>, d: char): string {
    if ps == [] then [] else if |ps| == 1 then ps[0] else ps[0] + [d] + Unite(ps[1..], d)
  }

  ghost predicate Clean(ps: seq<string>, d: char) { forall i :: 0 <= i < |ps| ==> d !in ps[i] }

  lemma {:induction false} UnitePieces(s: string, d: char)
    ensures Unite(Pieces(s, d), d) == s && Clean(Pieces(s, d), d)
    decreases |s|
  {
    hide Find, Unite;
    var i := Find(s, d);
    if i == |s| {
      assert s[..i] == s && [s] + [] == [s];
      UniteFirst(s, [], d);
    } else {
      var rest := s[i + 1..];
      UnitePieces(rest, d);
      UniteFirst(s[..i], Pieces(rest, d), d);
      assert s == s[..i] + [d] + rest;
    }
  }

  lemma UniteFirst(p: string, ps: seq<string>, d: char)
    ensures Unite([p] + ps, d) == if ps == [] then p else p + [d] + Unite(ps, d)
  {
    assert ([p] + ps)[1..] == ps;
  }

  lemma {:induction false} FindIn(p: string, rest: string, d: char)
    requires d !in p
    ensures Find(p + [d] + rest, d) == |p| && Find(p, d) == |p|
  {
    if p != [] {
      FindIn(p[1..], rest, d);
      assert (p + [d] + rest)[1..] == p[1..] + [d] + rest;
    }
  }

  lemma PiecesFirst(p: string, rest: string, d: char)
    requires d !in p
    ensures Pieces(p, d) == [p] && Pieces(p + [d] + rest, d) == [p] + Pieces(rest, d)
  {
    hide Find;
    FindIn(p, rest, d);
    var s := p + [d] + rest;
    assert s[..|p|] == p && s[|p| + 1..] == rest;
  }

  lemma {:induction false} PiecesUnite(ps: seq<string>, d: char)
    requires ps != [] && Clean(ps, d)
    ensures Pieces(Unite(ps, d), d) == ps
  {
    hide Pieces, Unite;
    var tail := ps[1..];
    assert ps == [ps[0]] + tail;
    UniteFirst(ps[0], tail, d);
    PiecesFirst(ps[0], Unite(tail, d), d);
    if tail != [] { PiecesUnite(tail, d); }
  }

  // ---- Utils: split and join ----

  /** What split computes: getline does not report an empty piece at the end of the string. */
  function SplitPieces(s: string, d: char): (ps: seq<string>)
    decreases |s|
  {
    if s == [] then [] else
      var i := Find(s, d);
      if i == |s| then [s] else [s[..i]] + SplitPieces(s[i + 1..], d)
  }

  lemma {:induction false} SplitDropsEmptyEnd(s: string, d: char)
    ensures var ps := Pieces(s, d);
      SplitPieces(s, d) == if ps[|ps| - 1] == [] then ps[..|ps| - 1] else ps
    decreases |s|
  {
    var i := Find(s, d);
    if s != [] && i < |s| {
      SplitDropsEmptyEnd(s[i + 1..], d);
    }
  }

  method Split(s: string, delim: char) returns (elems: seq<string>)
    ensures elems == SplitPieces(s, delim)
  {
    hide Find, SplitPieces;
    elems := [];
    var pos := 0;
    SplitStep(s, 0, delim);
    while pos < |s|
      invariant 0 <= pos <= |s| + 1
      invariant pos <= |s| ==> elems + SplitPieces(s[pos..], delim) == SplitPieces(s, delim)
      invariant pos > |s| ==> elems == SplitPieces(s, delim)
    {
      var rest := s[pos..];
      var i := Find(rest, delim);
      SplitStep(s, pos, delim);
      elems := elems + [rest[..i]];
      pos := pos + i + 1;
    }
    SplitStep(s, |s|, delim);
  }

  lemma SplitStep(s: string, pos: nat, d: char)
    requires pos <= |s|
    ensures pos == |s| ==> SplitPieces(s[pos..], d) == []
    ensures pos < |s| ==>
      var i := Find(s[pos..], d);
      SplitPieces(s[pos..], d) ==
      [s[pos..][..i]] + if pos + i < |s| then SplitPieces(s[pos + i + 1..], d) else []
    ensures pos == 0 ==> s[pos..] == s
  {
    hide Find;
    if pos < |s| {
      var rest := s[pos..];
      var i := Find(rest, d);
      if i < |rest| {
        assert rest[i + 1..] == s[pos + i + 1..];
      } else {
        assert rest[..i] == rest;
      }
    }
  }

  function Min(a: nat, b: nat): nat { if a < b then a else b }

  method Join(elems: seq<string>, n: nat, delim: char) returns (s: string)
    ensures s == Unite(elems[..Min(|elems|, n)], delim)
  {
    s := "";
    var i := 0;
    while i < |elems| && i < n
      invariant i <= Min(|elems|, n)
      invariant s == Unite(elems[..i], delim)
    {
      UniteAppend(elems[..i], elems[i], delim);
      assert elems[..i + 1] == elems[..i] + [elems[i]];
      if i > 0 {
        s := s + [delim];
      }
      s := s + elems[i];
      i := i + 1;
    }
  }

  lemma {:induction false} UniteAppend(ps: seq<string>, p: string, d: char)
    ensures Unite(ps + [p], d) == if ps == [] then p else Unite(ps, d) + [d] + p
  {
    if |ps| == 1 {
      assert (ps + [p])[1..] == [p];
    } else if ps != [] {
      assert (ps + [p])[1..] == ps[1..] + [p];
      UniteAppend(ps[1..], p, d);
      assert Unite(ps, d) + [d] + p == ps[0] + [d] + (Unite(ps[1..], d) + [d] + p);
    }
  }

  ghost predicate EndsWith(s: string, d: char) { s != [] && s[|s| - 1] == d }

  lemma {:induction false} LastPiece(s: string, d: char)
    ensures Pieces(s, d)[|Pieces(s, d)| - 1] == [] <==> s == [] || EndsWith(s, d)
    decreases |s|
  {
    hide Find;
    var i := Find(s, d);
    if i == |s| {
      assert s[..i] == s;
      assert EndsWith(s, d) ==> d in s;
    } else {
      var rest := s[i + 1..];
      LastPiece(rest, d);
      LastOfTail(Pieces(s, d), s[..i], Pieces(rest, d));
      EndOfRest(s, i, d);
    }
  }

  lemma LastOfTail(ps: seq<string>, p: string, rest: seq<string>)
    requires ps == [p] + rest && rest != []
    ensures ps[|ps| - 1] == rest[|rest| - 1]
  {}

  lemma EndOfRest(s: string, i: nat, d: char)
    requires i < |s| && s[i] == d
    ensures EndsWith(s, d) <==> s[i + 1..] == [] || EndsWith(s[i + 1..], d)
  {
    if i + 1 < |s| { assert s[i + 1..][|s| - i - 2] == s[|s| - 1]; }
  }

  /** join undoes split exactly when the string does not end in the delimiter; otherwise it
      loses that delimiter. */
  lemma JoinAfterSplit(s: string, d: char)
    ensures Unite(SplitPieces(s, d), d) == if EndsWith(s, d) then s[..|s| - 1] else s
    ensures Unite(SplitPieces(s, d), d) == s <==> !EndsWith(s, d)
  {
    hide Find, Pieces, SplitPieces;
    UnitePieces(s, d);
    SplitDropsEmptyEnd(s, d);
    LastPiece(s, d);
    var ps := Pieces(s, d);
    if ps[|ps| - 1] == [] {
      var front := ps[..|ps| - 1];
      assert ps == front + [[]];
      UniteAppend(front, [], d);
      assert s == if front == [] then [] else Unite(front, d) + [d];
    }
  }

  /** split undoes join exactly when no element contains the delimiter and the last one is not
      empty. */
  lemma SplitAfterJoin(ps: seq<string>, d: char)
    ensures SplitPieces(Unite(ps, d), d) == ps <==> Clean(ps, d) && (ps == [] || ps[|ps| - 1] != [])
  {
    hide Find;
    var s := Unite(ps, d);
    SplitDropsEmptyEnd(s, d);
    UnitePieces(s, d);
    if ps != [] && Clean(ps, d) {
      PiecesUnite(ps, d);
    }
    if SplitPieces(s, d) == ps && ps != [] {
      var all := Pieces(s, d);
      assert all == ps || all == ps + [[]];
      assert Clean(ps, d) by {
        forall i | 0 <= i < |ps| ensures d !in ps[i] { assert ps[i] == all[i]; }
      }
    }
  }

  // ---- Addresses ----

  datatype Address = Address(ipcAddress: string, difName: string, apname: string)

  const UNSPECIFIED := Address([], [], [])

  /** Address::Address(const char*, const char*). */
  function MakeAddress(ipc: string, dif: string): Address { Address(ipc, dif, ipc + "_" + dif) }

  /** Address::Address(std::string): anything but two tokens gives the unspecified address. */
  function ParseAddress(composite: string): Address {
    var tokens := Pieces(composite, '_');
    if |tokens| == 2 then Address(tokens[0], tokens[1], tokens[0] + "_" + tokens[1]) else UNSPECIFIED
  }

  method Parse(composite: string) returns (a: Address)
    ensures a == ParseAddress(composite)
  {
    hide Find;
    var rest := composite;
    var tokens: seq<string> := [];
    var pos := Find(rest, '_');
    while pos != |rest|
      invariant pos == Find(rest, '_')
      invariant tokens + Pieces(rest, '_') == Pieces(composite, '_')
      decreases |rest|
    {
      tokens := tokens + [rest[..pos]];
      rest := rest[pos + 1..];
      pos := Find(rest, '_');
    }
    tokens := tokens + [rest];
    assert tokens == Pieces(composite, '_');
    a := UNSPECIFIED;
    if |tokens| == 2 {
      a := Address(tokens[0], tokens[1], tokens[0] + "_" + tokens[1]);
    }
  }

  /** Parsing the printed name of an address gives the address back exactly when neither part
      contains the delimiter. */
  lemma ParseAfterPrint(ipc: string, dif: string)
    ensures ParseAddress(MakeAddress(ipc, dif).apname) == MakeAddress(ipc, dif) <==> '_' !in ipc && '_' !in dif
  {
    var s := ipc + "_" + dif;
    UnitePieces(s, '_');
    var tokens := Pieces(s, '_');
    assert Unite([ipc, dif], '_') == s by {
      assert [ipc, dif][1..] == [dif];
    }
    if '_' !in ipc && '_' !in dif {
      PiecesUnite([ipc, dif], '_');
    } else {
      assert |tokens| == 2 ==> '_' !in tokens[0] && '_' !in tokens[1];
    }
  }

  /** A name that denotes an address: exactly two parts. */
  ghost predicate Canonical(a: Address) { a == ParseAddress(a.apname) }

  /** What is parsed is either unspecified or carries the name it was parsed from. */
  lemma ParsedName(composite: string)
    ensures ParseAddress(composite).apname == composite <==> composite == [] || |Pieces(composite, '_')| == 2
    ensures Canonical(ParseAddress(composite))
  {
    UnitePieces(composite, '_');
    var tokens := Pieces(composite, '_');
    if |tokens| == 2 {
      assert tokens == [tokens[0], tokens[1]] && tokens[1..] == [tokens[1]];
      assert Unite(tokens, '_') == tokens[0] + "_" + tokens[1];
    } else {
      assert Find([], '_') == 0;
      assert |Pieces([], '_')| == 1;
    }
  }
}
