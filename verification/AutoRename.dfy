/**
 Automatic renaming of short names (autorename and fmt_num in vfat.c): a name gets a numeric
 tail behind a tilde, or the tail it has is counted up.
 */
module AutoRename {
  import opened Arith

  const LIMIT: nat := 8            // characters of the base of a short name
  const MAX_TAIL: nat := 999999

  predicate IsIllegal(c: char) {
    c in ";+=[]',\"*\\<>/?:|"
  }

  predicate IsDigit(c: char) {
    '0' <= c <= '9'
  }

  // What the scan of a name remembers: the place of the tilde if nothing but digits came after
  // it, else -1; the number behind it; and ten to the power of its digits.
  datatype Tail = Tail(tildapos: int, seqnum: nat, maxseq: nat)

  function Step(t: Tail, c: char, i: nat): Tail {
    if c == '~' then Tail(i, 0, 1)
    else if IsDigit(c) then Tail(t.tildapos, t.seqnum * 10 + (c as nat - '0' as nat), t.maxseq * 10)
    else t.(tildapos := -1)
  }

  function TailOf(chars: seq<char>): (t: Tail)
    ensures -1 <= t.tildapos < |chars|
  {
    if chars == [] then Tail(-1, 0, 0)
    else
      var n := |chars| - 1;
      Step(TailOf(chars[..n]), chars[n], n)
  }

  predicate Stops(c: char) {
    c == ' ' || c == '\0'
  }

  // Where the base ends.
  ghost predicate IsDot(base: seq<char>, d: nat) {
    d <= |base| && d <= LIMIT && (forall i :: 0 <= i < d ==> !Stops(base[i])) && (d < LIMIT && d < |base| ==> Stops(base[d]))
  }

  function Dot(base: seq<char>): (d: nat)
    requires |base| == LIMIT
    ensures IsDot(base, d)
  {
    DotFrom(base, 0)
  }

  function DotFrom(base: seq<char>, i: nat): (d: nat)
    requires |base| == LIMIT && i <= LIMIT && forall k :: 0 <= k < i ==> !Stops(base[k])
    ensures IsDot(base, d)
    decreases LIMIT - i
  {
    if i < LIMIT && !Stops(base[i]) then DotFrom(base, i + 1) else i
  }

  lemma DotIsUnique(base: seq<char>, d: nat, e: nat)
    requires |base| == LIMIT && IsDot(base, d) && IsDot(base, e)
    ensures d == e
  {
  }

  // A number in a field of given length, with leading zeros, cut to the field.
  function Field(num: nat, len: nat): (f: seq<char>)
    ensures |f| == len
  {
    if len == 0 then [] else Field(num / 10, len - 1) + [(num % 10 + '0' as nat) as char]
  }

  // fmt_num: digits from the right, and then the prefix in front.
  method FmtNum(name: array<char>, base: nat, len: nat, num: nat)
    requires 1 <= len && base + len <= name.Length
    modifies name
    ensures name[..] == old(name[..base]) + ['~'] + Field(num, len - 1) + old(name[base + len..])
  {
    ghost var before := name[..];
    var end: nat, rest: nat := len, num;
    while end > 0
      invariant end <= len
      invariant end > 0 ==> Field(num, len - 1) == Field(rest, end - 1) + name[base + end..base + len]
      invariant end == 0 ==> Field(num, len - 1) == name[base + 1..base + len]
      invariant name[..base] == before[..base] && name[base + len..] == before[base + len..]
    {
      name[base + end - 1] := (rest % 10 + '0' as nat) as char;
      end, rest := end - 1, rest / 10;
    }
    name[base + end] := '~';
    assert name[..] == name[..base] + [name[base]] + name[base + 1..base + len] + name[base + len..];
  }

  function Pow10(k: nat): (p: nat)
    ensures p >= 1
  {
    if k == 0 then 1 else 10 * Pow10(k - 1)
  }

  lemma Pow10Size(k: nat)
    ensures k <= 5 ==> Pow10(k) <= 100000
    ensures k >= 6 ==> Pow10(k) >= 1000000
    ensures k >= 7 ==> Pow10(k) >= 10000000
  {
    if k >= 1 {
      Pow10Size(k - 1);
      assert k == 1 ==> Pow10(k) == 10;
      assert k == 2 ==> Pow10(k - 2) == 1;
      SmallPowers();
    }
  }

  lemma SmallPowers()
    ensures Pow10(1) == 10 && Pow10(2) == 100 && Pow10(3) == 1000 && Pow10(4) == 10000 && Pow10(5) == 100000 && Pow10(6) == 1000000
  {
    assert Pow10(2) == 10 * Pow10(1);
    assert Pow10(4) == 10 * Pow10(3) == 100 * Pow10(2);
    assert Pow10(6) == 10 * Pow10(5) == 100 * Pow10(4);
  }

  // The number behind the tilde has the digits there are.
  lemma {:induction false} TailSize(chars: seq<char>)
    ensures var t := TailOf(chars);
      t.tildapos >= 0 ==> chars[t.tildapos] == '~' && t.maxseq == Pow10(|chars| - t.tildapos - 1) && t.seqnum < t.maxseq
  {
    if chars != [] {
      TailSize(chars[..|chars| - 1]);
    }
  }

  // The part of the name that is replaced, and the number put there.
  datatype Plan = Plan(tildapos: nat, dotpos: nat, seqnum: nat)

  ghost predicate Scanned(t: Tail, d: nat) {
    d <= LIMIT && -1 <= t.tildapos < d && (t.tildapos >= 0 ==> t.maxseq == Pow10(d - t.tildapos - 1) && t.seqnum < t.maxseq)
  }

  function PlanFor(t: Tail, d: nat, bump: bool): (p: Plan)
    requires Scanned(t, d)
    ensures p.tildapos < p.dotpos <= LIMIT
  {
    if t.tildapos < 0 then
      if d > LIMIT - 2 then Plan(LIMIT - 2, LIMIT, 1) else Plan(d, d + 2, 1)
    else
      Pow10Size(d - t.tildapos - 1);
      var counted := if bump then t.seqnum + 1 else t.seqnum;
      if counted > MAX_TAIL then Plan(d - 2, d, 1)
      else if counted == t.maxseq then
        if d >= LIMIT then Plan(t.tildapos - 1, d, counted) else Plan(t.tildapos, d + 1, counted)
      else Plan(t.tildapos, d, counted)
  }

  // The base with its part replaced.
  function Placed(base: seq<char>, p: Plan): (r: seq<char>)
    requires |base| == LIMIT && p.tildapos < p.dotpos <= LIMIT
    ensures |r| == LIMIT
  {
    base[..p.tildapos] + ['~'] + Field(p.seqnum, p.dotpos - p.tildapos - 1) + base[p.dotpos..]
  }

  // The first loop: illegal characters are replaced, and then the number is not counted up.
  method ReplaceIllegals(name: array<char>, bump: bool) returns (bump': bool)
    modifies name
    ensures forall i :: 0 <= i < name.Length ==> name[i] == if old(name[i]) in ";+=[]',\"*\\<>/?:|" then '_' else old(name[i])
    ensures bump' <==> bump && forall i :: 0 <= i < name.Length ==> old(name[i]) !in ";+=[]',\"*\\<>/?:|"
  {
    bump' := bump;
    for i := 0 to name.Length
      invariant forall k :: i <= k < name.Length ==> name[k] == old(name[k])
      invariant forall k :: 0 <= k < i ==> name[k] == if IsIllegal(old(name[k])) then '_' else old(name[k])
      invariant bump' <==> bump && forall k :: 0 <= k < i ==> !IsIllegal(old(name[k]))
    {
      if IsIllegal(name[i]) {
        name[i] := '_';
        bump' := false;
      }
    }
  }

  // The second loop.
  method ScanBase(name: array<char>) returns (d: nat, t: Tail)
    requires name.Length >= LIMIT
    ensures IsDot(name[..LIMIT], d) && t == TailOf(name[..d])
  {
    d, t := 0, Tail(-1, 0, 0);
    while d < LIMIT && !Stops(name[d])
      invariant d <= LIMIT && t == TailOf(name[..d])
      invariant forall i :: 0 <= i < d ==> !Stops(name[i])
    {
      assert name[..d + 1][..d] == name[..d];
      t := Step(t, name[d], d);
      d := d + 1;
    }
  }

  function Cleaned(base: seq<char>): (r: seq<char>)
    ensures |r| == |base|
  {
    seq(|base|, i requires 0 <= i < |base| => if IsIllegal(base[i]) then '_' else base[i])
  }

  // What becomes of a base without illegal characters. The numeric tail may be turned off for
  // first names.
  function Renumbered(base: seq<char>, counting: bool, numericTail: bool): (r: seq<char>)
    requires |base| == LIMIT
    ensures |r| == LIMIT
  {
    TailSize(base[..Dot(base)]);
    var p := PlanFor(TailOf(base[..Dot(base)]), Dot(base), counting);
    if (counting && p.seqnum == 1) || p.seqnum > 1 || numericTail then Placed(base, p) else base
  }

  // autorename_short, on base and extension. The tail is counted up if that is wanted and no
  // character is illegal.
  method AutorenameShort(name: array<char>, bump: bool, numericTail: bool)
    requires name.Length == 11
    modifies name
    ensures forall i :: LIMIT <= i < 11 ==> name[i] == if IsIllegal(old(name[i])) then '_' else old(name[i])
    ensures var counting := bump && forall i :: 0 <= i < 11 ==> !IsIllegal(old(name[i]));
      name[..LIMIT] == Renumbered(Cleaned(old(name[..LIMIT])), counting, numericTail)
  {
    var counting := ReplaceIllegals(name, bump);
    assert name[..LIMIT] == Cleaned(old(name[..LIMIT]));
    Renumber(name, counting, numericTail);
  }

  // The rest of it, from the second loop on.
  method Renumber(name: array<char>, counting: bool, numericTail: bool)
    requires name.Length == 11
    modifies name
    ensures name[..LIMIT] == Renumbered(old(name[..LIMIT]), counting, numericTail)
    ensures forall i :: LIMIT <= i < 11 ==> name[i] == old(name[i])
  {
    ghost var base := name[..LIMIT];
    var d, t := ScanBase(name);
    assert base[..d] == name[..d];
    DotIsUnique(base, d, Dot(base));
    TailSize(name[..d]);
    var p := PlanFor(t, d, counting);
    if (counting && p.seqnum == 1) || p.seqnum > 1 || numericTail {
      WriteTail(name, p);
    }
  }

  method WriteTail(name: array<char>, p: Plan)
    requires name.Length == 11 && p.tildapos < p.dotpos <= LIMIT
    modifies name
    ensures name[..LIMIT] == Placed(old(name[..LIMIT]), p)
    ensures forall i :: LIMIT <= i < 11 ==> name[i] == old(name[i])
  {
    ghost var before := name[..];
    FmtNum(name, p.tildapos, p.dotpos - p.tildapos, p.seqnum);
    assert before[p.dotpos..] == before[..LIMIT][p.dotpos..] + before[LIMIT..];
    assert before[..p.tildapos] == before[..LIMIT][..p.tildapos];
    assert name[..] == Placed(before[..LIMIT], p) + before[LIMIT..];
  }

  // A base that is renamed to make it different.
  function Bumped(base: seq<char>, d: nat): (r: seq<char>)
    requires |base| == LIMIT && d <= LIMIT
    ensures |r| == LIMIT
  {
    TailSize(base[..d]);
    Placed(base, PlanFor(TailOf(base[..d]), d, true))
  }

  // Counting up is renaming, whether or not first names get a tail.
  lemma CountingBumps(base: seq<char>, numericTail: bool)
    requires |base| == LIMIT
    ensures Renumbered(base, true, numericTail) == Bumped(base, Dot(base))
  {
    TailSize(base[..Dot(base)]);
  }

  // A tail is its number, in as many digits as there are.
  lemma {:induction false} TailIsField(chars: seq<char>)
    ensures var t := TailOf(chars);
      t.tildapos >= 0 ==> chars == chars[..t.tildapos] + ['~'] + Field(t.seqnum, |chars| - t.tildapos - 1)
  {
    if chars != [] {
      var n := |chars| - 1;
      var front, t := TailOf(chars[..n]), TailOf(chars);
      TailIsField(chars[..n]);
      if t.tildapos >= 0 {
        assert chars == chars[..n] + [chars[n]];
        if t.tildapos < n {
          assert t.seqnum / 10 == front.seqnum && t.seqnum % 10 == chars[n] as nat - '0' as nat;
          assert chars[..n] == chars[..t.tildapos] + ['~'] + Field(front.seqnum, n - t.tildapos - 1);
        }
      }
    }
  }

  // Without counting, a base with a tail stays as it is, unless the number is beyond the limit.
  // One without a tail gets the tail 1, or nothing if numeric tails are turned off.
  lemma NotCounted(base: seq<char>, numericTail: bool)
    requires |base| == LIMIT
    ensures var t := TailOf(base[..Dot(base)]);
      if 0 <= t.tildapos && t.seqnum <= MAX_TAIL then Renumbered(base, false, numericTail) == base
      else if t.tildapos < 0 && !numericTail then Renumbered(base, false, numericTail) == base
      else t.tildapos < 0 ==> Renumbered(base, false, numericTail) == Bumped(base, Dot(base))
  {
    var d := Dot(base);
    TailSize(base[..d]);
    TailIsField(base[..d]);
    var t := TailOf(base[..d]);
    if 0 <= t.tildapos && t.seqnum <= MAX_TAIL {
      assert base == base[..d] + base[d..];
      assert base[..d][..t.tildapos] == base[..t.tildapos];
    }
  }

  // A stem with a numeric tail, the stem cut short as far as needed.

  function NumDigits(n: nat): (k: nat)
    ensures 1 <= k <= 6
  {
    if n < 10 then 1 else if n < 100 then 2 else if n < 1000 then 3 else if n < 10000 then 4 else if n < 100000 then 5 else 6
  }

  function Kept(stem: seq<char>, n: nat): (k: nat)
    ensures k <= |stem|
  {
    if |stem| <= 7 - NumDigits(n) then |stem| else 7 - NumDigits(n)
  }

  function Spaces(n: nat): (s: seq<char>)
    ensures |s| == n && forall i :: 0 <= i < n ==> s[i] == ' '
  {
    seq(n, _ => ' ')
  }

  function WithTail(stem: seq<char>, n: nat): (r: seq<char>)
    ensures |r| == LIMIT
  {
    stem[..Kept(stem, n)] + ['~'] + Field(n, NumDigits(n)) + Spaces(7 - Kept(stem, n) - NumDigits(n))
  }

  ghost predicate IsStem(stem: seq<char>) {
    |stem| <= LIMIT && forall i :: 0 <= i < |stem| ==> !Stops(stem[i])
  }

  lemma {:induction false} FieldIsDigits(num: nat, len: nat, i: nat)
    requires i < len
    ensures IsDigit(Field(num, len)[i])
  {
    if i < len - 1 {
      FieldIsDigits(num / 10, len - 1, i);
    }
  }

  // Reading a number off its digits.
  lemma {:induction false} TailOfField(chars: seq<char>, num: nat, len: nat)
    requires num < Pow10(len)
    ensures TailOf(chars + ['~'] + Field(num, len)) == Tail(|chars|, num, Pow10(len))
  {
    if len == 0 {
      assert (chars + ['~'])[..|chars|] == chars;
      assert chars + ['~'] + Field(num, 0) == chars + ['~'];
    } else {
      TailOfField(chars, num / 10, len - 1);
      var all, front := chars + ['~'] + Field(num, len), chars + ['~'] + Field(num / 10, len - 1);
      assert all[..|all| - 1] == front;
    }
  }

  lemma DigitsSuffice(n: nat)
    requires 1 <= n <= MAX_TAIL
    ensures n < Pow10(NumDigits(n))
    ensures n + 1 == Pow10(NumDigits(n)) <==> n + 1 > MAX_TAIL || NumDigits(n + 1) == NumDigits(n) + 1
    ensures n < MAX_TAIL && n + 1 != Pow10(NumDigits(n)) ==> NumDigits(n + 1) == NumDigits(n)
  {
    SmallPowers();
  }

  // Where a name with a tail ends, and what its scan gives.
  lemma TailIsRead(stem: seq<char>, n: nat)
    requires IsStem(stem) && 1 <= n <= MAX_TAIL
    ensures var d := Kept(stem, n) + 1 + NumDigits(n);
      IsDot(WithTail(stem, n), d) && TailOf(WithTail(stem, n)[..d]) == Tail(Kept(stem, n), n, Pow10(NumDigits(n)))
  {
    var c, k := Kept(stem, n), NumDigits(n);
    DigitsSuffice(n);
    TailOfField(stem[..c], n, k);
    assert WithTail(stem, n)[..c + 1 + k] == stem[..c] + ['~'] + Field(n, k);
    forall i | 0 <= i < c + 1 + k
      ensures !Stops(WithTail(stem, n)[i])
    {
      if i > c {
        FieldIsDigits(n, k, i - c - 1);
      }
    }
  }

  // Renaming counts the tail up by one; the number gets another digit when needed, in place of
  // a letter of the stem if there is no room.
  lemma TailIsCountedUp(stem: seq<char>, n: nat)
    requires IsStem(stem) && 1 <= n < MAX_TAIL
    ensures Bumped(WithTail(stem, n), Kept(stem, n) + 1 + NumDigits(n)) == WithTail(stem, n + 1)
  {
    TailIsRead(stem, n);
    DigitsSuffice(n);
    var base, c, k := WithTail(stem, n), Kept(stem, n), NumDigits(n);
    var p := PlanFor(Tail(c, n, Pow10(k)), c + 1 + k, true);
    assert p.seqnum == n + 1 && p.tildapos == Kept(stem, n + 1) && p.dotpos == Kept(stem, n + 1) + 1 + NumDigits(n + 1);
    assert base[..p.tildapos] == stem[..p.tildapos];
    assert base[p.dotpos..] == Spaces(LIMIT - p.dotpos);
  }

  // The number of a base goes up by one, and what is before it stays, but for a letter that has
  // to go.
  predicate CountedUp(base: seq<char>)
    requires |base| == LIMIT
  {
    var t, r := TailOf(base[..Dot(base)]), Bumped(base, Dot(base));
    var u := TailOf(r[..Dot(r)]);
    u.seqnum == t.seqnum + 1 && t.tildapos - 1 <= u.tildapos <= t.tildapos && 0 <= u.tildapos && r[..u.tildapos] == base[..u.tildapos]
  }

  // The number gets another digit in place of a space with more characters behind it.
  predicate RunsInto(base: seq<char>)
    requires |base| == LIMIT
  {
    var d, t := Dot(base), TailOf(base[..Dot(base)]);
    t.seqnum + 1 == t.maxseq && d + 1 < LIMIT && !Stops(base[d + 1])
  }

  // Any tail, leading zeros or not, is counted up, if and only if it does not run into
  // characters behind the base.
  lemma AnyTailIsCountedUp(base: seq<char>)
    requires |base| == LIMIT
    requires var t := TailOf(base[..Dot(base)]); t.tildapos >= 0 && t.seqnum < MAX_TAIL
    ensures CountedUp(base) <==> !RunsInto(base)
  {
    if RunsInto(base) {
      NextRunsOn(base);
    } else {
      NextIsCounted(base);
    }
  }

  // What renaming such a base puts into it.
  ghost function Next(base: seq<char>): (p: Plan)
    requires |base| == LIMIT
  {
    TailSize(base[..Dot(base)]);
    PlanFor(TailOf(base[..Dot(base)]), Dot(base), true)
  }

  lemma NextIsRead(base: seq<char>)
    requires |base| == LIMIT
    requires var t := TailOf(base[..Dot(base)]); t.tildapos >= 0 && t.seqnum < MAX_TAIL
    ensures var t, p, r := TailOf(base[..Dot(base)]), Next(base), Bumped(base, Dot(base));
      && t.tildapos - 1 <= p.tildapos <= t.tildapos && p.seqnum == t.seqnum + 1
      && r[..p.tildapos] == base[..p.tildapos] && r[p.dotpos..] == base[p.dotpos..] && (forall i :: 0 <= i < p.dotpos ==> !Stops(r[i]))
      && TailOf(r[..p.dotpos]) == Tail(p.tildapos, p.seqnum, Pow10(p.dotpos - p.tildapos - 1))
      && p.dotpos == if t.seqnum + 1 == t.maxseq && Dot(base) < LIMIT then Dot(base) + 1 else Dot(base)
  {
    TailSize(base[..Dot(base)]);
    PlanCountsUp(TailOf(base[..Dot(base)]), Dot(base));
    PlacedIsRead(base, Next(base));
  }

  lemma NextIsCounted(base: seq<char>)
    requires |base| == LIMIT && !RunsInto(base)
    requires var t := TailOf(base[..Dot(base)]); t.tildapos >= 0 && t.seqnum < MAX_TAIL
    ensures CountedUp(base)
  {
    NextIsRead(base);
    var p, r := Next(base), Bumped(base, Dot(base));
    assert p.dotpos < LIMIT ==> r[p.dotpos] == base[p.dotpos];
    DotIsUnique(r, Dot(r), p.dotpos);
  }

  lemma NextRunsOn(base: seq<char>)
    requires |base| == LIMIT && RunsInto(base)
    requires var t := TailOf(base[..Dot(base)]); t.tildapos >= 0 && t.seqnum < MAX_TAIL
    ensures !CountedUp(base)
  {
    NextIsRead(base);
    var p, r := Next(base), Bumped(base, Dot(base));
    assert r[p.dotpos] == base[p.dotpos];
    LongerTail(r, p.dotpos, Dot(r));
  }

  // Such a base cannot come from a long name, from which spaces are dropped, but it can be a
  // volume label. Its tail 9 should become 10; instead there is no tail any more.
  lemma SpacedBase()
    ensures RunsInto("A~9 BCDE") && TailOf("A~9 BCDE"[..Dot("A~9 BCDE")]) == Tail(1, 9, 10)
    ensures Bumped("A~9 BCDE", Dot("A~9 BCDE")) == "A~10BCDE" && TailOf("A~10BCDE"[..Dot("A~10BCDE")]).tildapos == -1
  {
    var base, after := "A~9 BCDE", "A~10BCDE";
    DotIsUnique(base, Dot(base), 3);
    DotIsUnique(after, Dot(after), 8);
    TailOfField("A", 9, 1);
    assert Field(9, 1) == "9" && base[..3] == "A" + "~" + "9";
    assert Field(10, 2) == Field(1, 1) + "0" == "10";
    assert Placed(base, Plan(1, 4, 10)) == after;
    assert after[..8] == after[..7] + "E";
  }

  const LABEL := "A~9 BCDE   "

  lemma LabelIsLegal()
    ensures forall i :: 0 <= i < 11 ==> !IsIllegal(LABEL[i])
    ensures LABEL[..LIMIT] == "A~9 BCDE" == Cleaned(LABEL[..LIMIT])
  {
    forall i | 0 <= i < 11
      ensures !IsIllegal(LABEL[i])
    {
      assert LABEL[i] in "A~9 BCDE";
    }
  }

  method SpacedLabelLosesTail() returns (name: array<char>)
    ensures name.Length == 11 && name[..LIMIT] == "A~10BCDE"
    ensures RunsInto(LABEL[..LIMIT]) && !CountedUp(LABEL[..LIMIT]) && TailOf(name[..LIMIT][..Dot(name[..LIMIT])]).tildapos == -1
  {
    name := new char[11](i requires 0 <= i < 11 => LABEL[i]);
    assert name[..LIMIT] == LABEL[..LIMIT];
    LabelIsLegal();
    SpacedBase();
    AnyTailIsCountedUp("A~9 BCDE");
    CountingBumps("A~9 BCDE", true);
    AutorenameShort(name, true, true);
  }

  lemma LongerTail(r: seq<char>, n: nat, d: nat)
    requires |r| == LIMIT && n < LIMIT && IsDot(r, d) && forall i :: 0 <= i <= n ==> !Stops(r[i])
    requires TailOf(r[..n]).tildapos >= 0 && TailOf(r[..n]).seqnum >= 1
    ensures var t, u := TailOf(r[..n]), TailOf(r[..d]);
      u.tildapos < 0 || u.tildapos >= n || u.seqnum >= 10 * t.seqnum
  {
    ReadOn(r[..n], r[..d]);
  }

  // More characters behind a tail make another number of it, or no tail at all.
  lemma {:induction false} ReadOn(chars: seq<char>, longer: seq<char>)
    requires chars < longer && TailOf(chars).tildapos >= 0 && TailOf(chars).seqnum >= 1
    ensures var t, u := TailOf(chars), TailOf(longer);
      u.tildapos < 0 || u.tildapos >= |chars| || u.seqnum >= 10 * t.seqnum
    decreases |longer|
  {
    var n := |longer| - 1;
    if n == |chars| {
      assert longer[..n] == chars;
    } else {
      ReadOn(chars, longer[..n]);
    }
  }

  // From 999999 on, any tail gives way to the tail 1 in the last two characters.
  lemma AnyTailStartsAgain(base: seq<char>)
    requires |base| == LIMIT
    requires var t := TailOf(base[..Dot(base)]); t.tildapos >= 0 && t.seqnum >= MAX_TAIL
    ensures var d, r := Dot(base), Bumped(base, Dot(base));
      d >= 7 && Dot(r) == d && r == base[..d - 2] + ['~', '1'] + base[d..] && TailOf(r[..d]) == Tail(d - 2, 1, 10)
  {
    var d := Dot(base);
    TailSize(base[..d]);
    Pow10Size(d - TailOf(base[..d]).tildapos - 1);
    assert Bumped(base, d) == Placed(base, Plan(d - 2, d, 1));
    TailOne(base, d);
  }

  // Two characters of a base are replaced by the tail 1.
  lemma TailOne(base: seq<char>, d: nat)
    requires |base| == LIMIT && IsDot(base, d) && d >= 2
    ensures var r := Placed(base, Plan(d - 2, d, 1));
      r == base[..d - 2] + ['~', '1'] + base[d..] && Dot(r) == d && TailOf(r[..d]) == Tail(d - 2, 1, 10)
  {
    var p := Plan(d - 2, d, 1);
    assert Field(1, 1) == ['1'] && Pow10(1) == 10;
    PlacedIsRead(base, p);
    DotIsUnique(Placed(base, p), Dot(Placed(base, p)), d);
  }

  lemma PlanCountsUp(t: Tail, d: nat)
    requires Scanned(t, d) && t.tildapos >= 0 && t.seqnum < MAX_TAIL
    ensures var p := PlanFor(t, d, true);
      && p.seqnum == t.seqnum + 1 < Pow10(p.dotpos - p.tildapos - 1)
      && t.tildapos - 1 <= p.tildapos <= t.tildapos && p.dotpos == if t.seqnum + 1 == t.maxseq && d < LIMIT then d + 1 else d
  {
    Pow10Size(d - t.tildapos - 1);
    assert Pow10(d - t.tildapos) == 10 * Pow10(d - t.tildapos - 1);
  }

  // What is put into a base is read off it again.
  lemma PlacedIsRead(base: seq<char>, p: Plan)
    requires |base| == LIMIT && p.tildapos < p.dotpos <= LIMIT && p.seqnum < Pow10(p.dotpos - p.tildapos - 1)
    requires forall i :: 0 <= i < p.tildapos ==> !Stops(base[i])
    ensures forall i :: 0 <= i < p.dotpos ==> !Stops(Placed(base, p)[i])
    ensures IsDot(Placed(base, p), p.dotpos) <==> p.dotpos == LIMIT || Stops(base[p.dotpos])
    ensures TailOf(Placed(base, p)[..p.dotpos]) == Tail(p.tildapos, p.seqnum, Pow10(p.dotpos - p.tildapos - 1))
  {
    var r, len := Placed(base, p), p.dotpos - p.tildapos - 1;
    TailOfField(base[..p.tildapos], p.seqnum, len);
    assert r[..p.dotpos] == base[..p.tildapos] + ['~'] + Field(p.seqnum, len);
    forall i | 0 <= i < p.dotpos
      ensures !Stops(r[i])
    {
      if i > p.tildapos {
        FieldIsDigits(p.seqnum, len, i - p.tildapos - 1);
      }
    }
  }

  // After 999999 the count starts again at 1, behind what was the name but for its last two
  // characters.
  lemma TailStartsAgain(stem: seq<char>)
    requires IsStem(stem)
    ensures var d := Kept(stem, MAX_TAIL) + 7;
      Bumped(WithTail(stem, MAX_TAIL), d) == WithTail(WithTail(stem, MAX_TAIL)[..d - 2], 1)
  {
    TailIsRead(stem, MAX_TAIL);
    var base, d := WithTail(stem, MAX_TAIL), Kept(stem, MAX_TAIL) + 7;
    assert PlanFor(Tail(d - 7, MAX_TAIL, Pow10(6)), d, true) == Plan(d - 2, d, 1);
    assert base[d..] == Spaces(LIMIT - d);
    assert Field(1, 1) == ['1'];
  }

  // A name without a tail gets the tail 1.
  lemma FreshTail(base: seq<char>, d: nat)
    requires |base| == LIMIT && IsDot(base, d) && TailOf(base[..d]).tildapos < 0
    requires forall i :: d <= i < LIMIT ==> base[i] == ' '
    ensures Bumped(base, d) == WithTail(base[..d], 1) && IsStem(base[..d])
  {
    var p := PlanFor(TailOf(base[..d]), d, true);
    assert base[..p.tildapos] == base[..d][..Kept(base[..d], 1)];
    assert base[p.dotpos..] == Spaces(LIMIT - p.dotpos);
    assert Field(1, 1) == ['1'];
  }

  // The name after a number of renamings.
  ghost function Renamed(base: seq<char>, times: nat): (r: seq<char>)
    requires |base| == LIMIT
    ensures |r| == LIMIT
  {
    if times == 0 then base else Bumped(Renamed(base, times - 1), Dot(Renamed(base, times - 1)))
  }

  // The tails of the names after 1, 2, ..., 999999 renamings are 1, 2, ..., 999999.
  lemma {:induction false} RenamedTail(base: seq<char>, times: nat)
    requires |base| == LIMIT && 1 <= times <= MAX_TAIL
    requires TailOf(base[..Dot(base)]).tildapos < 0 && forall i :: Dot(base) <= i < LIMIT ==> base[i] == ' '
    ensures IsStem(base[..Dot(base)]) && Renamed(base, times) == WithTail(base[..Dot(base)], times)
  {
    var stem := base[..Dot(base)];
    if times == 1 {
      assert Renamed(base, 0) == base;
      FreshTail(base, Dot(base));
    } else {
      RenamedTail(base, times - 1);
      NextTail(stem, times - 1);
    }
  }

  lemma PlainRenamed(base: seq<char>, d: nat, times: nat)
    requires |base| == LIMIT && IsDot(base, d) && d > 0 && base[d - 1] != '~' && !IsDigit(base[d - 1]) && 1 <= times <= MAX_TAIL
    requires forall i :: d <= i < LIMIT ==> base[i] == ' '
    ensures Renamed(base, times) == WithTail(base[..d], times)
  {
    DotIsUnique(base, Dot(base), d);
    RenamedTail(base, times);
  }

  // A name of six characters or more, renamed once and renamed twelve times.
  lemma RenamedSpelled(base: seq<char>, d: nat, once: nat, often: nat)
    requires |base| == LIMIT && IsDot(base, d) && d >= 6 && base[d - 1] != '~' && !IsDigit(base[d - 1]) && once == 1 && often == 12
    requires forall i :: d <= i < LIMIT ==> base[i] == ' '
    ensures Renamed(base, once) == base[..6] + ['~', '1']
    ensures Renamed(base, often) == base[..5] + ['~', '1', '2']
  {
    PlainRenamed(base, d, once);
    PlainRenamed(base, d, often);
    TailsSpelled(base[..d], once, often);
    assert base[..d][..6] == base[..6] && base[..d][..5] == base[..5];
  }

  lemma TailsSpelled(stem: seq<char>, once: nat, often: nat)
    requires |stem| >= 6 && once == 1 && often == 12
    ensures WithTail(stem, once) == stem[..6] + ['~', '1'] && WithTail(stem, often) == stem[..5] + ['~', '1', '2']
  {
    assert Field(once, 1) == ['1'] && Field(often / 10, 1) == ['1'] && Field(often, 2) == ['1', '2'];
    assert Spaces(0) == [];
  }

  lemma NextTail(stem: seq<char>, n: nat)
    requires IsStem(stem) && 1 <= n < MAX_TAIL
    ensures Bumped(WithTail(stem, n), Dot(WithTail(stem, n))) == WithTail(stem, n + 1)
  {
    TailIsRead(stem, n);
    DotIsUnique(WithTail(stem, n), Dot(WithTail(stem, n)), Kept(stem, n) + 1 + NumDigits(n));
    TailIsCountedUp(stem, n);
  }

  // The tail can be read off the name.
  lemma TailIsUnique(stem: seq<char>, n: nat)
    requires IsStem(stem) && 1 <= n <= MAX_TAIL
    ensures TailOf(WithTail(stem, n)[..Dot(WithTail(stem, n))]).seqnum == n
  {
    TailIsRead(stem, n);
    DotIsUnique(WithTail(stem, n), Dot(WithTail(stem, n)), Kept(stem, n) + 1 + NumDigits(n));
  }

  // Renaming a fresh name again and again gives 999999 different names.
  lemma RenamingsDiffer(base: seq<char>, m: nat, n: nat)
    requires |base| == LIMIT && 1 <= m < n <= MAX_TAIL
    requires TailOf(base[..Dot(base)]).tildapos < 0 && forall i :: Dot(base) <= i < LIMIT ==> base[i] == ' '
    ensures Renamed(base, m) != Renamed(base, n)
  {
    RenamedTail(base, m);
    RenamedTail(base, n);
    TailIsUnique(base[..Dot(base)], m);
    TailIsUnique(base[..Dot(base)], n);
  }
}
