/** 8.3 file names ("FAT Directory Structure" of the FAT32 specification): how a name is stored, and how
    a name that was typed is compared with a stored one. */
module FatNames {
  const NAME_BYTES := 11

  function ToUpper(c: char): char {
    if 'a' <= c <= 'z' then c - 32 as char else c
  }

  function Upper(s: string): (r: string)
    ensures |r| == |s|
  {
    seq(|s|, i requires 0 <= i < |s| => ToUpper(s[i]))
  }

  function Spaces(n: nat): (r: string)
    ensures |r| == n && forall i :: 0 <= i < n ==> r[i] == ' '
  {
    seq(n, _ => ' ')
  }

  /** Upper case, padded with spaces. */
  function Padded(s: string, n: nat): (r: string)
    requires |s| <= n
    ensures |r| == n
  {
    Upper(s) + Spaces(n - |s|)
  }

  predicate NoDot(s: string) {
    forall i :: 0 <= i < |s| ==> s[i] != '.'
  }

  /** A stored name that marks neither the end of a directory nor a deleted entry. */
  predicate Usable(name83: string) {
    |name83| == NAME_BYTES && name83[0] != '\0' && name83[0] as int != 0xe5
  }

  /** A name in 8.3 form: a base of up to 8 characters, and after a dot an extension of up to 3. */
  datatype Name = Name(base: string, dotted: bool, ext: string) {
    predicate Valid() {
      && 1 <= |base| <= 8 && NoDot(base) && |ext| <= 3 && NoDot(ext) && (!dotted ==> ext == "")
      && '\0' !in base && '\0' !in ext && '/' !in base && '/' !in ext
      && Usable(Stored())
    }

    function Text(): string {
      base + (if dotted then "." + ext else "")
    }

    function Stored(): string {
      if |base| <= 8 && |ext| <= 3 then Padded(base, 8) + Padded(ext, 3) else ""
    }
  }

  // ---------------------------------------------------------------- character by character

  /** u is c with a small letter made a capital one. */
  predicate IsCapital(u: char, c: char) {
    if 'a' <= c && c <= 'z' then u as int + 32 == c as int else u == c
  }

  /** The two characters differ in case at most. */
  predicate SameLetter(c: char, d: char) {
    c == d || ('A' <= c <= 'Z' && d as int == c as int + 32) || ('A' <= d <= 'Z' && c as int == d as int + 32)
  }

  predicate SameUpToCase(s: string, t: string) {
    |s| == |t| && forall i :: 0 <= i < |s| ==> SameLetter(s[i], t[i])
  }

  /** The eleven characters of a stored name: the base in capitals, the extension from the ninth on, and
      spaces around them. */
  ghost predicate StoredAs(name: Name, stored: string) {
    && |stored| == NAME_BYTES && |name.base| <= 8 && |name.ext| <= 3
    && (forall i :: 0 <= i < 8 ==> if i < |name.base| then IsCapital(stored[i], name.base[i]) else stored[i] == ' ')
    && (forall i, j :: 0 <= i < 3 && j == i + 8 ==>
          if i < |name.ext| then IsCapital(stored[j], name.ext[i]) else stored[j] == ' ')
  }

  /** There is one such form, and Stored is it. */
  lemma StoredIs(name: Name, stored: string)
    requires |name.base| <= 8 && |name.ext| <= 3
    ensures StoredAs(name, stored) <==> stored == name.Stored()
  {
    var s := name.Stored();
    assert forall i :: 0 <= i < 8 ==> s[i] == if i < |name.base| then ToUpper(name.base[i]) else ' ';
    assert forall i, j :: 0 <= i < 3 && j == i + 8 ==> s[j] == if i < |name.ext| then ToUpper(name.ext[i]) else ' ';
    if StoredAs(name, stored) {
      forall i | 0 <= i < NAME_BYTES ensures stored[i] == s[i] {
        var j := i - 8;
        assert i >= 8 ==> if j < |name.ext| then IsCapital(stored[i], name.ext[j]) else stored[i] == ' ';
      }
    }
  }

  lemma SameCapital(c: char, d: char)
    ensures SameLetter(c, d) <==> ToUpper(c) == ToUpper(d)
    ensures SameLetter(c, d) ==> (c == '.' <==> d == '.')
  {
  }

  /** Different names are stored differently, up to case and trailing dots and spaces. */
  lemma StoredInjective(a: Name, b: Name)
    requires a.Valid() && b.Valid() && a.Stored() == b.Stored()
    requires ' ' !in a.base && ' ' !in b.base && ' ' !in a.ext && ' ' !in b.ext
    ensures Upper(a.base) == Upper(b.base) && Upper(a.ext) == Upper(b.ext)
  {
    assert Padded(a.base, 8) == a.Stored()[..8] == b.Stored()[..8] == Padded(b.base, 8);
    assert Padded(a.ext, 3) == a.Stored()[8..] == b.Stored()[8..] == Padded(b.ext, 3);
    PaddedInjective(a.base, b.base, 8);
    PaddedInjective(a.ext, b.ext, 3);
  }

  lemma PaddedInjective(s: string, t: string, n: nat)
    requires |s| <= n && |t| <= n && Padded(s, n) == Padded(t, n) && ' ' !in s && ' ' !in t
    ensures Upper(s) == Upper(t)
  {
    SpacesBehind(s, n);
    SpacesBehind(t, n);
    assert |s| < n ==> Padded(s, n)[|s|] == ' ';
    assert |t| < n ==> Padded(t, n)[|t|] == ' ';
    assert |s| == |t|;
    assert Padded(s, n)[..|s|] == Upper(s);
    assert Padded(t, n)[..|t|] == Upper(t);
  }

  lemma SpacesBehind(s: string, n: nat)
    requires |s| <= n && ' ' !in s
    ensures forall i :: 0 <= i < n ==> (Padded(s, n)[i] == ' ' <==> i >= |s|)
  {
    forall i | 0 <= i < |s| ensures Padded(s, n)[i] != ' ' {
      assert s[i] in s;
    }
  }

  // ---------------------------------------------------------------- comparing

  /** What the loop of NameIsEqual makes of a name from its character i on; a dot moves to the extension. */
  function Typed(name: string, i: nat, i83: nat, name83: string): (r: string)
    requires i <= |name| && |name83| == NAME_BYTES
    ensures |r| == NAME_BYTES
    decreases |name| - i
  {
    if i == |name| || i83 >= NAME_BYTES then name83
    else if name[i] == '.' then Typed(name, i + 1, 8, name83)
    else Typed(name, i + 1, i83 + 1, name83[i83 := ToUpper(name[i])])
  }

  /** A stretch without a dot. */
  lemma {:induction false} TypedRun(name: string, i: nat, j: nat, i83: nat, name83: string)
    requires i <= j <= |name| && |name83| == NAME_BYTES && NoDot(name[i..j]) && i83 + j - i <= NAME_BYTES
    ensures Typed(name, i, i83, name83)
            == Typed(name, j, i83 + j - i, name83[..i83] + Upper(name[i..j]) + name83[i83 + j - i..])
    decreases j - i
  {
    if i == j {
      assert name83[..i83] + Upper(name[i..j]) + name83[i83..] == name83;
    } else {
      assert name[i] == name[i..j][0] && name[i + 1..j] == name[i..j][1..];
      var next := name83[i83 := ToUpper(name[i])];
      TypedRun(name, i + 1, j, i83 + 1, next);
      assert next[..i83 + 1] + Upper(name[i + 1..j]) + next[i83 + j - i..]
          == name83[..i83] + Upper(name[i..j]) + name83[i83 + j - i..];
    }
  }

  /** A valid name is compared in the form in which it is stored. */
  lemma TypedIsStored(name: Name)
    requires name.Valid()
    ensures Typed(name.Text(), 0, 0, Spaces(NAME_BYTES)) == name.Stored()
  {
    hide Upper, Spaces, Padded, Usable, NoDot;
    var text, blank, b := name.Text(), Spaces(NAME_BYTES), |name.base|;
    assert text[0..b] == name.base;
    TypedRun(text, 0, b, 0, blank);
    WithBase(name.base);
    var withBase := Padded(name.base, 8) + Spaces(3);
    assert Typed(text, 0, 0, blank) == Typed(text, b, b, withBase);
    hide Typed;
    if name.dotted {
      TypedDotted(name, text, withBase);
    } else {
      TypedEnd(text, b, withBase);
      WithExtension(name.base, "");
    }
  }

  lemma TypedEnd(text: string, i83: nat, name83: string)
    requires |name83| == NAME_BYTES
    ensures Typed(text, |text|, i83, name83) == name83
  {
  }

  lemma TypedDotted(name: Name, text: string, withBase: string)
    requires name.Valid() && name.dotted && text == name.Text() && withBase == Padded(name.base, 8) + Spaces(3)
    ensures Typed(text, |name.base|, |name.base|, withBase) == name.Stored()
  {
    hide Upper, Spaces, Padded, Usable, NoDot;
    var b := |name.base|;
    assert text[b] == '.' && text[b + 1..|text|] == name.ext;
    TypedRun(text, b + 1, |text|, 8, withBase);
    WithExtension(name.base, name.ext);
  }

  lemma WithBase(base: string)
    requires |base| <= 8
    ensures var blank := Spaces(NAME_BYTES); blank[..0] + Upper(base) + blank[|base|..] == Padded(base, 8) + Spaces(3)
  {
  }

  lemma WithExtension(base: string, ext: string)
    requires |base| <= 8 && |ext| <= 3
    ensures var withBase := Padded(base, 8) + Spaces(3);
      withBase[..8] + Upper(ext) + withBase[8 + |ext|..] == Padded(base, 8) + Padded(ext, 3)
    ensures ext == "" ==> Padded(ext, 3) == Spaces(3)
  {
  }

  /** Case does not matter. */
  lemma {:induction false} TypedUpToCase(name: string, other: string, i: nat, i83: nat, name83: string)
    requires SameUpToCase(name, other) && i <= |name| && |name83| == NAME_BYTES
    ensures Typed(name, i, i83, name83) == Typed(other, i, i83, name83)
    decreases |name| - i
  {
    if i < |name| && i83 < NAME_BYTES {
      SameCapital(name[i], other[i]);
      if name[i] == '.' {
        TypedUpToCase(name, other, i + 1, 8, name83);
      } else {
        TypedUpToCase(name, other, i + 1, i83 + 1, name83[i83 := ToUpper(name[i])]);
      }
    }
  }

  lemma TypedIsStoredAs(form: Name, name: string, stored: string)
    requires form.Valid() && SameUpToCase(name, form.Text())
    ensures stored == Typed(name, 0, 0, Spaces(NAME_BYTES)) <==> StoredAs(form, stored)
  {
    hide Typed;
    TypedUpToCase(name, form.Text(), 0, 0, Spaces(NAME_BYTES));
    TypedIsStored(form);
    StoredIs(form, stored);
  }

  /** NameIsEqual: a name typed in any case is the one stored in capitals. */
  method NameIsEqual(stored: string, name: string) returns (equal: bool)
    requires |stored| == NAME_BYTES
    ensures equal <==> stored == Typed(name, 0, 0, Spaces(NAME_BYTES))
    ensures forall form: Name :: form.Valid() && SameUpToCase(name, form.Text()) ==> (equal <==> StoredAs(form, stored))
  {
    forall form: Name | form.Valid() && SameUpToCase(name, form.Text())
      ensures stored == Typed(name, 0, 0, Spaces(NAME_BYTES)) <==> StoredAs(form, stored)
    {
      TypedIsStoredAs(form, name, stored);
    }
    var name83 := Spaces(NAME_BYTES);
    var i, i83 := 0, 0;
    while i < |name| && i83 < NAME_BYTES
      invariant 0 <= i <= |name| && 0 <= i83 && |name83| == NAME_BYTES
      invariant Typed(name, 0, 0, Spaces(NAME_BYTES)) == Typed(name, i, i83, name83)
    {
      if name[i] == '.' {
        i83 := 7;
      } else {
        name83 := name83[i83 := ToUpper(name[i])];
      }
      i, i83 := i + 1, i83 + 1;
    }
    equal := stored == name83;
  }

  // ---------------------------------------------------------------- storing

  /** strrchr for the dot: its last place, or the length of the name if it has none. */
  method LastDot(name: string) returns (dot: nat)
    ensures dot <= |name| && (dot < |name| ==> name[dot] == '.' && NoDot(name[dot + 1..]))
    ensures dot == |name| ==> NoDot(name)
  {
    dot := |name|;
    var i := |name|;
    while i > 0
      invariant 0 <= i <= |name| && dot == |name| && NoDot(name[i..])
    {
      i := i - 1;
      if name[i] == '.' {
        return i;
      }
    }
  }

  /** The loops of SetFileName: the first characters of a text, in upper case, at a place of the name. */
  method Put(stored: string, at: nat, text: string, limit: nat) returns (r: string)
    requires |stored| == NAME_BYTES && at + limit <= NAME_BYTES
    ensures var n := if limit < |text| then limit else |text|;
      r == stored[..at] + Upper(text[..n]) + stored[at + n..]
  {
    r := stored;
    var i := 0;
    while i < limit && i < |text|
      invariant 0 <= i <= limit && i <= |text|
      invariant r == stored[..at] + Upper(text[..i]) + stored[at + i..]
    {
      assert Upper(text[..i + 1]) == Upper(text[..i]) + [ToUpper(text[i])];
      r := r[at + i := ToUpper(text[i])];
      i := i + 1;
    }
  }

  /** The last dot of a name, or its end if there is none. */
  ghost predicate LastDotAt(name: string, dot: nat) {
    && dot <= |name| && (dot < |name| ==> name[dot] == '.')
    && forall i :: 0 <= i < |name| && i > dot ==> name[i] != '.'
  }

  ghost predicate HasDot(name: string) {
    exists i :: 0 <= i < |name| && name[i] == '.'
  }

  /** What SetFileName leaves for any name: what is before its last dot, and what is behind it. */
  ghost predicate Cut(name: string, dot: nat, stored: string) {
    && |stored| == NAME_BYTES && dot <= |name|
    && (forall i :: 0 <= i < 8 ==> if i < dot then IsCapital(stored[i], name[i]) else stored[i] == ' ')
    && (forall i, j :: 8 <= i < NAME_BYTES && j == dot + i - 7 ==>
          if j < |name| then IsCapital(stored[i], name[j]) else stored[i] == ' ')
  }

  /** SetFileName; a valid name is stored in its 8.3 form. */
  method SetFileName(name: string, ghost form: Name) returns (stored: string)
    ensures |stored| == NAME_BYTES
    ensures form.Valid() && name == form.Text() ==> stored == form.Stored() && StoredAs(form, stored)
    ensures forall dot: nat :: LastDotAt(name, dot) && (dot == |name| ==> !HasDot(name)) ==> Cut(name, dot, stored)
  {
    hide Upper, Spaces, Padded, Name.Valid, Name.Stored, Name.Text, NoDot, StoredAs, Cut, LastDotAt, HasDot;
    var dot := LastDot(name);
    stored := Put(Spaces(NAME_BYTES), 0, name[..dot], 8);
    ghost var base := name[..if dot < 8 then dot else 8];
    ghost var ext := if dot < |name| then name[dot + 1..] else "";
    ghost var short := ext[..if |ext| < 3 then |ext| else 3];
    assert name[..dot][..|base|] == base;
    WithBase(base);
    WithExtension(base, short);
    if dot < |name| {
      stored := Put(stored, 8, name[dot + 1..], 3);
    }
    IsCut(name, dot, stored);
    if form.Valid() && name == form.Text() {
      FormStored(form, name, dot, stored);
    }
  }

  lemma FormStored(form: Name, name: string, dot: nat, stored: string)
    requires form.Valid() && name == form.Text()
    requires dot <= |name| && (dot < |name| ==> name[dot] == '.' && NoDot(name[dot + 1..])) && (dot == |name| ==> NoDot(name))
    requires var base := name[..if dot < 8 then dot else 8]; var ext := if dot < |name| then name[dot + 1..] else "";
      stored == Padded(base, 8) + Padded(ext[..if |ext| < 3 then |ext| else 3], 3)
    ensures stored == form.Stored() && StoredAs(form, stored)
  {
    hide Padded, StoredAs;
    DotIs(form, name, dot);
    var ext := if dot < |name| then name[dot + 1..] else "";
    assert name[..dot] == form.base && ext == form.ext && ext[..|ext|] == ext;
    StoredIs(form, stored);
  }

  lemma IsCut(name: string, dot: nat, stored: string)
    requires dot <= |name| && (dot < |name| ==> name[dot] == '.' && NoDot(name[dot + 1..])) && (dot == |name| ==> NoDot(name))
    requires var base := name[..if dot < 8 then dot else 8]; var ext := if dot < |name| then name[dot + 1..] else "";
      stored == Padded(base, 8) + Padded(ext[..if |ext| < 3 then |ext| else 3], 3)
    ensures forall d: nat :: LastDotAt(name, d) && (d == |name| ==> !HasDot(name)) ==> d == dot
    ensures Cut(name, dot, stored)
  {
  }

  lemma DotIs(form: Name, name: string, dot: nat)
    requires form.Valid() && name == form.Text() && dot <= |name|
    requires dot < |name| ==> name[dot] == '.' && NoDot(name[dot + 1..])
    requires dot == |name| ==> NoDot(name)
    ensures dot == |form.base| <= 8 && name[..dot] == form.base && (dot < |name| ==> name[dot + 1..] == form.ext)
    ensures |form.ext| <= 3 && (form.dotted <==> dot < |name|) && (dot == |name| ==> form.ext == "")
  {
    var b := |form.base|;
    forall i | 0 <= i < |name| ensures name[i] == '.' <==> form.dotted && i == b {
      if i < b {
        assert name[i] == form.base[i];
      } else if i > b {
        assert name[i] == form.ext[i - b - 1];
      }
    }
    assert name[..b] == form.base;
    if form.dotted {
      assert name[b] == '.' && name[b + 1..] == form.ext;
    }
  }
}
