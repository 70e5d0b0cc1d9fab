/** File names: 8.3 names, the `~n` tail search and the long-name slots (libvdf/file.c, libvdf/read_dir.c). */
module Names {
  import opened Bytes

  /** A C string, without its terminating NUL. */
  type Name = seq<byte>

  const SPACE: byte := 32
  const DOT: byte := 46
  const UNDERSCORE: byte := 95
  const TILDE: byte := 126
  const ZERO: byte := 48

  predicate NulFree(s: Name) {
    forall i :: 0 <= i < |s| ==> s[i] != 0
  }

  /** None of the characters / \ : ? * " < > | occurs, and the name is not empty. */
  predicate FilenameValid(s: Name) {
    s != [] && forall c :: c in s ==> c !in {47, 92, 58, 63, 42, 34, 60, 62, 124}
  }

  function ToUpper(c: byte): byte {
    if 97 <= c <= 122 then c - 32 else c
  }

  /** Two names are equal for `strcasecmp` when their folded forms are equal. */
  function Folded(s: Name): (r: Name)
    ensures |r| == |s|
  {
    seq(|s|, i requires 0 <= i < |s| => ToUpper(s[i]))
  }

  // ---------------------------------------------------------------- searching a directory

  datatype Sibling = Sibling(name: Name, shortname: Name)

  datatype SearchFlags = AnyName | ShortOnly | LongOnly

  predicate Matches(s: Sibling, key: Name, flags: SearchFlags) {
    || (!flags.ShortOnly? && Folded(key) == Folded(s.name))
    || (!flags.LongOnly? && Folded(key) == Folded(s.shortname))
  }

  /** The first entry other than `skip` that matches, or -1. */
  method FindFileSkip(dir: seq<Sibling>, key: Name, flags: SearchFlags, skip: int) returns (r: int)
    ensures -1 <= r < |dir|
    ensures r >= 0 ==> r != skip && Matches(dir[r], key, flags)
    ensures forall k :: 0 <= k < (if r < 0 then |dir| else r) && k != skip ==> !Matches(dir[k], key, flags)
  {
    var k := 0;
    while k < |dir|
      invariant k <= |dir|
      invariant forall j :: 0 <= j < k && j != skip ==> !Matches(dir[j], key, flags)
    {
      if k != skip {
        if !flags.ShortOnly? && Folded(key) == Folded(dir[k].name) {
          return k;
        }
        if !flags.LongOnly? && Folded(key) == Folded(dir[k].shortname) {
          return k;
        }
      }
      k := k + 1;
    }
    r := -1;
  }

  ghost predicate ShortTaken(dir: seq<Sibling>, skip: int, key: Name) {
    exists k :: 0 <= k < |dir| && k != skip && Matches(dir[k], key, ShortOnly)
  }

  // ---------------------------------------------------------------- the plain 8.3 form

  /** What one character contributes to an 8.3 name: a space is dropped, some characters become underscores. */
  function StuffDosname(c: byte): Name {
    if c == SPACE then []
    else if c in {43, 44, 59, 61, 91, 93, 34, 47, 46} then [UNDERSCORE]
    else [ToUpper(c)]
  }

  function Stuffed(s: Name): (r: Name)
    ensures |r| <= |s|
  {
    if s == [] then [] else Stuffed(s[..|s| - 1]) + StuffDosname(s[|s| - 1])
  }

  /** The index of the last dot, or the length of the name. */
  function LastDot(s: Name): (r: nat)
    ensures r <= |s|
    ensures r < |s| ==> s[r] == DOT
    ensures forall k :: r < k < |s| ==> s[k] != DOT
  {
    if s == [] then 0
    else if s[|s| - 1] == DOT then |s| - 1
    else
      var r := LastDot(s[..|s| - 1]);
      if r == |s| - 1 then |s| else r
  }

  function StemOf(name: Name): Name {
    Stuffed(name[..Min(8, LastDot(name))])
  }

  /** The dot and the extension, if the name has a dot. */
  function ExtensionOf(name: Name): Name {
    var dot := LastDot(name);
    if dot < |name| then [DOT] + Stuffed(name[dot + 1..Min(dot + 4, |name|)]) else []
  }

  function BaseName(name: Name): Name {
    StemOf(name) + ExtensionOf(name)
  }

  // ---------------------------------------------------------------- the numbered tail

  const TAIL_LIMIT: nat := 1_000_000

  /** How many digit positions attempt `ind` overwrites: the ten-thousands digit is written twice. */
  function DigitsWritten(ind: nat): nat {
    if ind < 10 then 1
    else if ind < 100 then 2
    else if ind < 1000 then 3
    else if ind < 10000 then 4
    else if ind < 100000 then 6
    else 7
  }

  function DigitOf(ind: nat, j: nat): (r: int)
    ensures 0 <= r < 10
  {
    match j
    case 0 => ind % 10
    case 1 => ind / 10 % 10
    case 2 => ind / 100 % 10
    case 3 => ind / 1000 % 10
    case 4 => ind / 10000 % 10
    case 5 => ind / 10000 % 10
    case _ => ind / 100000 % 10
  }

  function TailDigit(ind: nat, j: nat): byte {
    ZERO + DigitOf(ind, j) as byte
  }

  function CandidateChar(base: Name, ind: nat, p: nat): byte
    requires p < |base|
  {
    if p >= 8 || p < 7 - DigitsWritten(ind) then base[p]
    else if p == 7 - DigitsWritten(ind) then TILDE
    else TailDigit(ind, 7 - p)
  }

  /** Attempt `ind` of the tail search on an 8.3 name whose stem has eight characters. */
  function Candidate(base: Name, ind: nat): (r: Name)
    ensures |r| == |base|
  {
    seq(|base|, p requires 0 <= p < |base| => CandidateChar(base, ind, p))
  }

  /** Different attempts give names that differ even when case is ignored. */
  lemma CandidatesDistinct(base: Name, i: nat, j: nat)
    requires |base| >= 8 && 0 < i < j < TAIL_LIMIT
    ensures Folded(Candidate(base, i)) != Folded(Candidate(base, j))
  {
    var a, b := Candidate(base, i), Candidate(base, j);
    if Folded(a) == Folded(b) {
      forall p | 0 <= p < 8
        ensures ToUpper(CandidateChar(base, i, p)) == ToUpper(CandidateChar(base, j, p))
      {
        assert Folded(a)[p] == Folded(b)[p];
      }
      var p := 7 - DigitsWritten(i);
      assert ToUpper(CandidateChar(base, i, p)) == ToUpper(CandidateChar(base, j, p));
      assert DigitsWritten(i) == DigitsWritten(j);
      SameDigits(base, i, j);
    }
  }

  /** Equal characters at a digit position mean equal digits. */
  lemma SameDigit(base: Name, i: nat, j: nat, t: nat)
    requires |base| >= 8 && t < DigitsWritten(i) == DigitsWritten(j)
    requires ToUpper(CandidateChar(base, i, 7 - t)) == ToUpper(CandidateChar(base, j, 7 - t))
    ensures DigitOf(i, t) == DigitOf(j, t)
  {
    assert TailDigit(i, t) == TailDigit(j, t);
  }

  lemma SameDigits(base: Name, i: nat, j: nat)
    requires |base| >= 8 && i < TAIL_LIMIT && j < TAIL_LIMIT
    requires DigitsWritten(i) == DigitsWritten(j)
    requires forall p :: 0 <= p < 8 ==> ToUpper(CandidateChar(base, i, p)) == ToUpper(CandidateChar(base, j, p))
    ensures i == j
  {
    forall t | 0 <= t < DigitsWritten(i)
      ensures DigitOf(i, t) == DigitOf(j, t)
    {
      assert 0 <= 7 - t < 8;
      SameDigit(base, i, j, t);
    }
    NumberFromDigits(i);
    NumberFromDigits(j);
  }

  /** The digits that an attempt writes determine its number. */
  lemma NumberFromDigits(i: nat)
    requires i < TAIL_LIMIT
    ensures i == DigitValue(i, 0) + 10 * DigitValue(i, 1) + 100 * DigitValue(i, 2)
                 + 1000 * DigitValue(i, 3) + 10000 * DigitValue(i, 4) + 100000 * DigitValue(i, 6)
  {
    DecimalDigits(i);
  }

  function DigitValue(i: nat, t: nat): int {
    if t < DigitsWritten(i) then DigitOf(i, t) else 0
  }

  lemma DecimalDigits(i: nat)
    requires i < TAIL_LIMIT
    ensures i == i % 10 + 10 * (i / 10 % 10) + 100 * (i / 100 % 10) + 1000 * (i / 1000 % 10)
                 + 10000 * (i / 10000 % 10) + 100000 * (i / 100000 % 10)
  {
    var a := i / 10;
    var b := a / 10;
    var c := b / 10;
    var d := c / 10;
    var e := d / 10;
    assert b == i / 100 && c == i / 1000 && d == i / 10000 && e == i / 100000;
    assert e < 10;
  }

  /** Positions d+1..7 hold digits; everything the tail leaves alone is still the plain form. */
  ghost predicate TailSoFar(b: seq<byte>, base: Name, ind: nat, d: int) {
    && 8 <= |base| <= |b|
    && (forall p :: 0 <= p < |base| && (p >= 8 || p < 7 - DigitsWritten(ind)) ==> b[p] == base[p])
    && (forall p :: 0 <= p < 8 && d < p ==> b[p] == TailDigit(ind, 7 - p))
  }

  method PutDigit(buf: array<byte>, ind: nat, wanted: bool, d: int, ghost base: Name) returns (d': int)
    requires TailSoFar(buf[..], base, ind, d) && 0 < d <= 7
    requires wanted ==> d > 7 - DigitsWritten(ind)
    modifies buf
    ensures d' == if wanted then d - 1 else d
    ensures TailSoFar(buf[..], base, ind, d')
  {
    d' := d;
    if wanted {
      buf[d] := TailDigit(ind, 7 - d);
      d' := d - 1;
    }
  }

  /** Overwrites the end of the stem with `~` and the number, from the right. */
  method WriteTail(buf: array<byte>, ind: nat, ghost base: Name)
    requires 8 <= |base| <= buf.Length && ind < TAIL_LIMIT
    requires forall p :: 0 <= p < |base| && (p >= 8 || p < 7 - DigitsWritten(ind)) ==> buf[p] == base[p]
    modifies buf
    ensures buf[..|base|] == Candidate(base, ind)
  {
    var d := PutDigit(buf, ind, true, 7, base);
    d := PutDigit(buf, ind, ind >= 10, d, base);
    d := PutDigit(buf, ind, ind >= 100, d, base);
    d := PutDigit(buf, ind, ind >= 1000, d, base);
    d := PutDigit(buf, ind, ind >= 10000, d, base);
    d := PutDigit(buf, ind, ind >= 10000, d, base);
    d := PutDigit(buf, ind, ind >= 100000, d, base);
    assert d == 7 - DigitsWritten(ind);
    ghost var b := buf[..];
    buf[d] := TILDE;
    TailComplete(b, buf[..], base, ind, d);
  }

  lemma TailComplete(b: seq<byte>, c: seq<byte>, base: Name, ind: nat, d: int)
    requires ind < TAIL_LIMIT && d == 7 - DigitsWritten(ind) && TailSoFar(b, base, ind, d) && c == b[d := TILDE]
    ensures c[..|base|] == Candidate(base, ind)
  {
    forall p | 0 <= p < |base|
      ensures c[..|base|][p] == Candidate(base, ind)[p]
    {
      assert c[p] == CandidateChar(base, ind, p);
    }
  }

  method TailSearch(dir: seq<Sibling>, skip: int, buf: array<byte>, ghost base: Name, len: nat) returns (ind: nat)
    requires 8 <= len == |base| <= buf.Length && buf[..len] == base
    modifies buf
    ensures 0 < ind <= TAIL_LIMIT
    ensures forall j :: 0 < j < ind ==> ShortTaken(dir, skip, Candidate(base, j))
    ensures ind < TAIL_LIMIT ==> buf[..len] == Candidate(base, ind) && !ShortTaken(dir, skip, Candidate(base, ind))
  {
    ind := 1;
    assert forall p :: 0 <= p < len ==> buf[p] == buf[..len][p];
    while ind < TAIL_LIMIT
      invariant 0 < ind <= TAIL_LIMIT
      invariant forall p :: 0 <= p < len && (p >= 8 || p < 7 - DigitsWritten(ind)) ==> buf[p] == base[p]
      invariant forall j :: 0 < j < ind ==> ShortTaken(dir, skip, Candidate(base, j))
    {
      WriteTail(buf, ind, base);
      var r := FindFileSkip(dir, buf[..len], ShortOnly, skip);
      if r < 0 {
        return;
      }
      assert Matches(dir[r], Candidate(base, ind), ShortOnly);
      forall p | 0 <= p < len && (p >= 8 || p < 7 - DigitsWritten(ind + 1))
        ensures buf[p] == base[p]
      {
        assert buf[p] == buf[..len][p];
      }
      ind := ind + 1;
    }
  }

  /** The outcome of `calc_shortname`. */
  ghost predicate ShortnameChosen(dir: seq<Sibling>, skip: int, name: Name, short: Name, long: bool) {
    var base := BaseName(name);
    if base == name then short == name && !long
    else if |StemOf(name)| < 8 then short == base && long
    else
      && long
      && exists ind ::
          && 0 < ind < TAIL_LIMIT
          && short == Candidate(base, ind)
          && !ShortTaken(dir, skip, short)
          && forall j :: 0 < j < ind ==> ShortTaken(dir, skip, Candidate(base, j))
  }

  /** Appends what one character contributes and returns the new end. */
  method StuffChar(buf: array<byte>, d: nat, c: byte) returns (d': nat)
    requires d < buf.Length
    modifies buf
    ensures d' == d + |StuffDosname(c)|
    ensures buf[..d'] == old(buf[..d]) + StuffDosname(c)
    ensures forall k :: d' <= k < buf.Length ==> buf[k] == old(buf[k])
  {
    d' := d;
    if c != SPACE {
      buf[d] := if c in {43, 44, 59, 61, 91, 93, 34, 47, 46} then UNDERSCORE else ToUpper(c);
      d' := d + 1;
    }
  }

  lemma StuffedStep(s: Name, i: nat)
    requires i < |s|
    ensures Stuffed(s[..i + 1]) == Stuffed(s[..i]) + StuffDosname(s[i])
  {
    assert s[..i + 1][..i] == s[..i];
  }

  method StuffInto(buf: array<byte>, d: nat, s: Name) returns (d': nat)
    requires d + |s| <= buf.Length
    modifies buf
    ensures d' == d + |Stuffed(s)|
    ensures buf[..d'] == old(buf[..d]) + Stuffed(s)
    ensures forall k :: d' <= k < buf.Length ==> buf[k] == old(buf[k])
  {
    d' := d;
    ghost var pre := buf[..d];
    var i := 0;
    while i < |s|
      invariant i <= |s|
      invariant d' == d + |Stuffed(s[..i])|
      invariant buf[..d'] == pre + Stuffed(s[..i])
      invariant forall k :: d' <= k < buf.Length ==> buf[k] == old(buf[k])
    {
      StuffedStep(s, i);
      d' := StuffChar(buf, d', s[i]);
      assert (pre + Stuffed(s[..i])) + StuffDosname(s[i]) == pre + (Stuffed(s[..i]) + StuffDosname(s[i]));
      i := i + 1;
    }
    assert s[..|s|] == s;
  }

  method WriteExtension(buf: array<byte>, d: nat, name: Name) returns (d': nat)
    requires d + 4 <= buf.Length
    modifies buf
    ensures d' == d + |ExtensionOf(name)| <= d + 4
    ensures buf[..d'] == old(buf[..d]) + ExtensionOf(name)
  {
    var sp := LastDot(name);
    d' := d;
    if sp < |name| {
      buf[d] := DOT;
      assert buf[..d + 1] == old(buf[..d]) + [DOT];
      ghost var pre, ext := old(buf[..d]), Stuffed(name[sp + 1..Min(sp + 4, |name|)]);
      d' := StuffInto(buf, d + 1, name[sp + 1..Min(sp + 4, |name|)]);
      assert (pre + [DOT]) + ext == pre + ([DOT] + ext);
    }
  }

  method WriteBase(buf: array<byte>, name: Name) returns (stemLen: nat, d: nat)
    requires buf.Length == 13
    modifies buf
    ensures stemLen == |StemOf(name)| <= 8 && d == |BaseName(name)| <= 13
    ensures buf[..d] == BaseName(name)
  {
    stemLen := StuffInto(buf, 0, name[..Min(8, LastDot(name))]);
    assert buf[..stemLen] == StemOf(name);
    d := WriteExtension(buf, stemLen, name);
  }

  method CalcShortname(dir: seq<Sibling>, skip: int, name: Name) returns (ok: bool, short: Name, long: bool)
    ensures ok ==> ShortnameChosen(dir, skip, name, short, long)
    ensures !ok ==> BaseName(name) != name && |StemOf(name)| == 8
    ensures !ok ==> forall ind :: 0 < ind < TAIL_LIMIT ==> ShortTaken(dir, skip, Candidate(BaseName(name), ind))
  {
    var buf := new byte[13];
    var stemLen, d := WriteBase(buf, name);
    if buf[..d] == name {
      return true, name, false;
    }
    if stemLen >= 8 {
      var ind := TailSearch(dir, skip, buf, BaseName(name), d);
      if ind == TAIL_LIMIT {
        return false, [], false;
      }
    }
    ok := true;
    short := buf[..d];
    long := true;
  }

  // ---------------------------------------------------------------- what the search guarantees

  /** Some entry that takes attempt `ind`. */
  ghost function Holder(dir: seq<Sibling>, skip: int, base: Name, ind: nat): (k: int)
    requires ShortTaken(dir, skip, Candidate(base, ind))
    ensures 0 <= k < |dir| && k != skip && Matches(dir[k], Candidate(base, ind), ShortOnly)
  {
    var k :| 0 <= k < |dir| && k != skip && Matches(dir[k], Candidate(base, ind), ShortOnly);
    k
  }

  ghost function Holders(dir: seq<Sibling>, skip: int, base: Name, n: nat): set<int>
    requires forall ind :: 0 < ind <= n ==> ShortTaken(dir, skip, Candidate(base, ind))
  {
    set ind | 0 < ind <= n :: Holder(dir, skip, base, ind)
  }

  lemma {:induction false} HoldersCount(dir: seq<Sibling>, skip: int, base: Name, n: nat)
    requires |base| >= 8 && n < TAIL_LIMIT
    requires forall ind :: 0 < ind <= n ==> ShortTaken(dir, skip, Candidate(base, ind))
    ensures |Holders(dir, skip, base, n)| == n
  {
    if n > 0 {
      HoldersCount(dir, skip, base, n - 1);
      var h := Holder(dir, skip, base, n);
      forall ind | 0 < ind < n
        ensures Holder(dir, skip, base, ind) != h
      {
        CandidatesDistinct(base, ind, n);
      }
      assert Holders(dir, skip, base, n) == Holders(dir, skip, base, n - 1) + {h};
    }
  }

  lemma {:induction false} BoundedSetSize(s: set<int>, n: nat)
    requires forall k :: k in s ==> 0 <= k < n
    ensures |s| <= n
  {
    if n == 0 {
      assert forall k :: k !in s;
      assert s == {};
    } else {
      BoundedSetSize(s - {n - 1}, n - 1);
    }
  }

  /** The tail search can fail only in a directory with at least 999,999 other entries. */
  lemma FailureNeedsManySiblings(dir: seq<Sibling>, skip: int, base: Name)
    requires |base| >= 8
    requires forall ind :: 0 < ind < TAIL_LIMIT ==> ShortTaken(dir, skip, Candidate(base, ind))
    ensures |dir| >= TAIL_LIMIT - 1
    ensures 0 <= skip < |dir| ==> |dir| >= TAIL_LIMIT
  {
    var n := TAIL_LIMIT - 1;
    var h := Holders(dir, skip, base, n);
    HoldersCount(dir, skip, base, n);
    BoundedSetSize(h, |dir|);
    if 0 <= skip < |dir| {
      BoundedSetSize(h + {skip}, |dir|);
    }
  }

  /** The chosen short name is free among the other entries exactly when it comes from the tail search, which
      takes an eight-character stem and a name that is not its own 8.3 form, or the 8.3 form is not in use. */
  lemma ShortnameUnique(dir: seq<Sibling>, skip: int, name: Name, short: Name, long: bool)
    requires ShortnameChosen(dir, skip, name, short, long)
    ensures !ShortTaken(dir, skip, short) <==>
            (BaseName(name) != name && |StemOf(name)| == 8) || !ShortTaken(dir, skip, BaseName(name))
  {
    assert |StemOf(name)| <= 8;
  }

  /** For a new file, whose name was compared with long and short names before, an eight-character stem is
      enough by itself. */
  lemma NewShortnameUnique(dir: seq<Sibling>, skip: int, name: Name, short: Name, long: bool)
    requires ShortnameChosen(dir, skip, name, short, long)
    requires forall k :: 0 <= k < |dir| && k != skip ==> !Matches(dir[k], name, AnyName)
    ensures !ShortTaken(dir, skip, short) <==> (|StemOf(name)| == 8 || !ShortTaken(dir, skip, BaseName(name)))
  {
    ShortnameUnique(dir, skip, name, short, long);
    if BaseName(name) == name {
      forall k | 0 <= k < |dir| && k != skip
        ensures !Matches(dir[k], name, ShortOnly)
      {
        assert !Matches(dir[k], name, AnyName);
      }
    }
  }

  /** Characters that an 8.3 name keeps, up to case. */
  predicate Ordinary(s: Name) {
    forall i :: 0 <= i < |s| ==> StuffDosname(s[i]) == [ToUpper(s[i])] && s[i] != DOT
  }

  lemma {:induction false} OrdinaryStuffed(s: Name)
    requires Ordinary(s)
    ensures Stuffed(s) == Folded(s) && LastDot(s) == |s|
  {
    if s != [] {
      OrdinaryStuffed(s[..|s| - 1]);
    }
  }

  lemma OrdinaryBase(name: Name)
    requires Ordinary(name)
    ensures BaseName(name) == StemOf(name) == Folded(name[..Min(8, |name|)])
  {
    OrdinaryStuffed(name);
    OrdinaryStuffed(name[..Min(8, |name|)]);
  }

  /** A renamed file is compared with long names only: renaming a file to the short name of an entry with a
      longer name is accepted and gives it the same short name. */
  lemma RenameCollides(name: Name, longer: Name)
    requires Ordinary(name) && Folded(name) == name && |name| == 8 < |longer|
    ensures
      var dir := [Sibling(longer, name)];
      && !Matches(dir[0], name, LongOnly) && |StemOf(name)| == 8
      && ShortnameChosen(dir, -1, name, name, false) && ShortTaken(dir, -1, name)
  {
    OrdinaryBase(name);
    assert name[..8] == name;
    assert |Folded(name)| != |Folded(longer)|;
    assert Matches([Sibling(longer, name)][0], name, ShortOnly);
  }

  /** Such entries exist: in an empty directory an ordinary name of more than eight characters gets the
      numbered short name that the renamed file then takes, for instance "LONGFI~1" for "longfilename". */
  lemma RenameHasVictim(longer: Name, name: Name)
    requires Ordinary(longer) && |longer| > 8 && name == Candidate(Folded(longer[..8]), 1)
    ensures ShortnameChosen([], -1, longer, name, true)
    ensures Ordinary(name) && Folded(name) == name && |name| == 8
  {
    OrdinaryBase(longer);
    var base := Folded(longer[..8]);
    assert BaseName(longer) == base && |base| == 8;
    assert !ShortTaken([], -1, name);
    forall p | 0 <= p < 8
      ensures StuffDosname(name[p]) == [ToUpper(name[p])] && name[p] != DOT && ToUpper(name[p]) == name[p]
    {
      assert StuffDosname(longer[p]) == [ToUpper(longer[p])];
      assert name[p] == CandidateChar(base, 1, p);
    }
  }

  /** A short stem is not checked: "A B" next to "AB" gives both entries the short name "AB". */
  lemma ShortStemCollides()
    ensures
      var dir := [Sibling([65, 66], [65, 66])];
      var name: Name := [65, SPACE, 66];
      && (forall k :: 0 <= k < |dir| ==> !Matches(dir[k], name, AnyName))
      && ShortnameChosen(dir, -1, name, [65, 66], true)
      && ShortTaken(dir, -1, [65, 66])
  {
    var name: Name := [65, SPACE, 66];
    var s0 := Sibling([65, 66], [65, 66]);
    var dir := [s0];
    assert LastDot([65]) == 1;
    assert name[..2] == [65, SPACE] && [65, SPACE][..1] == [65];
    assert LastDot([65, SPACE]) == 2;
    assert LastDot(name) == 3;
    assert name[..3] == name;
    assert Stuffed([65]) == [65];
    assert Stuffed([65, SPACE]) == [65];
    assert StemOf(name) == [65, 66];
    assert BaseName(name) == [65, 66];
    assert |Folded(name)| == 3 && |Folded(s0.name)| == 2 && |Folded(s0.shortname)| == 2;
    assert !Matches(dir[0], name, AnyName);
    assert Matches(dir[0], [65, 66], ShortOnly);
  }

  // ---------------------------------------------------------------- no NUL appears

  lemma {:induction false} StuffedNulFree(s: Name)
    requires NulFree(s)
    ensures NulFree(Stuffed(s))
  {
    if s != [] {
      StuffedNulFree(s[..|s| - 1]);
    }
  }

  lemma BaseNulFree(name: Name)
    requires NulFree(name)
    ensures NulFree(BaseName(name))
  {
    var dot := LastDot(name);
    StuffedNulFree(name[..Min(8, dot)]);
    if dot < |name| {
      StuffedNulFree(name[dot + 1..Min(dot + 4, |name|)]);
    }
    assert NulFree(StemOf(name)) && NulFree(ExtensionOf(name));
  }

  lemma CandidateNulFree(base: Name, ind: nat)
    requires NulFree(base)
    ensures NulFree(Candidate(base, ind))
  {
  }

  /** A chosen short name is again a C string. */
  lemma ChosenNulFree(dir: seq<Sibling>, skip: int, name: Name, short: Name, long: bool)
    requires NulFree(name) && ShortnameChosen(dir, skip, name, short, long)
    ensures NulFree(short)
  {
    BaseNulFree(name);
    var base := BaseName(name);
    if base != name && |StemOf(name)| >= 8 {
      var ind :| 0 < ind < TAIL_LIMIT && short == Candidate(base, ind);
      CandidateNulFree(base, ind);
    }
  }
}
