/** The parser of peer references: an identity, and any number of cables by which the peer can be reached. */
module PeerReference {
  import opened Basics

  const MAX_SIZE: nat := 1000000
  const ANYONE := "anyone"

  /** The parsed identity (none for "anyone") and the cables. */
  type Reference = (seq<string>, seq<string>)

  /** The first index of a character, or the length of the string. */
  function Find(s: string, c: char): (pos: nat)
    ensures pos <= |s|
    ensures forall i :: 0 <= i < pos ==> s[i] != c
    ensures pos < |s| ==> s[pos] == c
  {
    if s == "" || s[0] == c then 0 else 1 + Find(s[1..], c)
  }

  predicate HasParens(s: string) {
    '(' in s || ')' in s
  }

  // ---------------------------------------------------------------- parsing

  /** What follows an opened group: cables, each closed and then followed by the next group or the end. */
  function ParseGroups(t: string): Result<seq<string>>
    decreases |t|
  {
    if |t| <= 1 then Success([])
    else
      var found := Find(t, ')');
      var posX := if found == |t| then |t| - 1 else found;
      var part := t[..posX];
      if HasParens(part) || part == "" || t[posX] != ')' then Failure(InvalidInput)
      else if posX + 1 == |t| then Success([part])
      else if t[posX + 1] != '@' then Failure(InvalidInput)
      else if posX + 2 == |t| then Failure(OutOfRange)
      else if t[posX + 2] != '(' then Failure(InvalidInput)
      else Prepend([part], ParseGroups(t[posX + 3..]))
  }

  function Prepend(before: seq<string>, r: Result<seq<string>>): Result<seq<string>> {
    var cables :- r;
    Success(before + cables)
  }

  function Parse(s: string): Result<Reference> {
    if |s| > MAX_SIZE || |s| < 3 then Failure(InvalidInput)
    else
      var pos1 := Find(s, '@');
      if pos1 == |s| then
        if HasParens(s) then Failure(InvalidInput) else Success(([s], []))
      else
        var part1 := s[..pos1];
        if HasParens(part1) || part1 == "" || pos1 + 2 >= |s| || s[pos1 + 1] != '(' then Failure(InvalidInput)
        else
          var cables :- ParseGroups(s[pos1 + 2..]);
          Success((IdOf(part1), cables))
  }

  function IdOf(virtual: string): seq<string> {
    if virtual == ANYONE then [] else [virtual]
  }

  // ---------------------------------------------------------------- printing

  predicate IsVirtual(v: string) {
    v != "" && '@' !in v && !HasParens(v)
  }

  predicate IsCable(c: string) {
    c != "" && !HasParens(c)
  }

  predicate AreCables(cables: seq<string>) {
    forall i :: 0 <= i < |cables| ==> IsCable(cables[i])
  }

  function Groups(cables: seq<string>): string {
    if cables == [] then "" else "@(" + cables[0] + ")" + Groups(cables[1..])
  }

  function Print(r: Reference): string {
    (if r.0 == [] then ANYONE else r.0[0]) + Groups(r.1)
  }

  /** References that have a printed form of their own. */
  predicate WellFormed(r: Reference) {
    && |r.0| <= 1
    && (r.0 == [] ==> r.1 != [])
    && (r.0 != [] ==> IsVirtual(r.0[0]) && (r.1 == [] ==> |r.0[0]| >= 3) && (r.1 != [] ==> r.0[0] != ANYONE))
    && AreCables(r.1)
  }

  /** A group that was opened and not filled: nothing, or one character of any kind. */
  predicate IsDangling(tail: string) {
    2 <= |tail| <= 3 && tail[0] == '@' && tail[1] == '('
  }

  // ---------------------------------------------------------------- what is accepted

  lemma FindAt(before: string, c: char, after: string)
    requires c !in before
    ensures Find(before + [c] + after, c) == |before|
  {
    var s := before + [c] + after;
    assert s[|before|] == c;
    assert forall i :: 0 <= i < |before| ==> s[i] == before[i] && before[i] in before;
  }

  lemma GroupsBegin(cables: seq<string>, tail: string)
    requires Groups(cables) + tail != "" && (tail == "" || IsDangling(tail))
    ensures var g := Groups(cables) + tail; |g| >= 2 && g[0] == '@' && g[1] == '('
  {}

  lemma GroupsSplit(cables: seq<string>, tail: string)
    requires cables != []
    ensures var g, more := Groups(cables) + tail, Groups(cables[1..]) + tail;
            |g| >= 2 && g[2..] == cables[0] + [')'] + more
  {
    var c, more := cables[0], Groups(cables[1..]) + tail;
    assert Groups(cables) + tail == "@(" + (c + [')'] + more);
  }

  lemma CableIsPlain(c: string)
    requires IsCable(c)
    ensures ')' !in c
  {}

  /** One cable behind an opened group, and then the end or the next opening. */
  lemma OneGroupParses(c: string, more: string)
    requires IsCable(c) && (more == "" || (|more| >= 2 && more[0] == '@' && more[1] == '('))
    ensures ParseGroups(c + [')'] + more) == if more == "" then Success([c]) else Prepend([c], ParseGroups(more[2..]))
  {
    hide HasParens;
    var t := c + [')'] + more;
    assert ')' !in c by {
      CableIsPlain(c);
    }
    FindAt(c, ')', more);
    assert t[..|c|] == c && t[|c|] == ')';
    if more != "" {
      assert t[|c| + 1] == more[0] && t[|c| + 2] == more[1] && t[|c| + 3..] == more[2..];
    }
  }

  /** Printed groups are parsed into their cables, also with a dangling group behind them. */
  lemma {:induction false} GroupsParse(cables: seq<string>, tail: string)
    requires AreCables(cables) && Groups(cables) + tail != "" && (tail == "" || IsDangling(tail))
    ensures |Groups(cables) + tail| >= 2 && ParseGroups((Groups(cables) + tail)[2..]) == Success(cables)
    decreases |cables|
  {
    GroupsBegin(cables, tail);
    if cables == [] {
      assert Groups(cables) + tail == tail;
    } else {
      hide ParseGroups, Groups, IsCable, IsDangling;
      var c, more := cables[0], Groups(cables[1..]) + tail;
      GroupsSplit(cables, tail);
      if more != "" {
        GroupsBegin(cables[1..], tail);
        GroupsParse(cables[1..], tail);
      } else {
        assert |more| == |Groups(cables[1..])| + |tail|;
        NoGroups(cables[1..]);
        assert cables == [c];
      }
      OneGroupParses(c, more);
      assert [c] + cables[1..] == cables;
      assert (Groups(cables) + tail)[2..] == c + [')'] + more;
    }
  }

  /** The first cable of an accepted opened group, and what follows the next opening, if there is one. */
  lemma FirstCable(t: string) returns (c: string, more: Option<string>)
    requires ParseGroups(t).Success? && |t| > 1
    ensures IsCable(c) && t == c + ")" + (if more == None then "" else "@(" + more.value)
    ensures more == None ==> ParseGroups(t).value == [c]
    ensures more.Some? ==>
              && |more.value| < |t| && ParseGroups(more.value).Success?
              && ParseGroups(t).value == [c] + ParseGroups(more.value).value
  {
    var posX := Find(t, ')');
    c := t[..posX];
    if posX + 1 == |t| {
      more := None;
    } else {
      more := Some(t[posX + 3..]);
      assert t == t[..posX] + [t[posX]] + [t[posX + 1]] + [t[posX + 2]] + t[posX + 3..];
    }
  }

  lemma OneGroup(c: string)
    ensures Groups([c]) == "@(" + c + ")"
  {
    assert [c][1..] == [];
    assert Groups([c]) == "@(" + c + ")" + "";
  }

  lemma MoreGroups(c: string, cables: seq<string>, tail: string, text: string)
    requires text == Groups(cables) + tail
    ensures "@(" + c + ")" + text == Groups([c] + cables) + tail
  {
    assert ([c] + cables)[1..] == cables;
  }

  lemma NoGroup(t: string)
    requires |t| <= 1
    ensures ParseGroups(t) == Success([]) && IsDangling("@(" + t) && "@(" + t == Groups([]) + ("@(" + t)
  {}

  /** Whatever is accepted behind an opened group is printed cables, or printed cables and a dangling group. */
  lemma {:induction false} AcceptedGroups(t: string) returns (tail: string)
    requires ParseGroups(t).Success?
    ensures AreCables(ParseGroups(t).value) && (tail == "" || IsDangling(tail))
    ensures "@(" + t == Groups(ParseGroups(t).value) + tail
    decreases |t|
  {
    hide ParseGroups, Groups, IsDangling, IsCable;
    if |t| <= 1 {
      tail := "@(" + t;
      NoGroup(t);
    } else {
      var c, more := FirstCable(t);
      if more == None {
        tail := "";
        OneGroup(c);
        assert "@(" + t == Groups([c]) + "";
      } else {
        tail := AcceptedGroups(more.value);
        MoreGroups(c, ParseGroups(more.value).value, tail, "@(" + more.value);
        assert "@(" + t == "@(" + c + ")" + ("@(" + more.value);
      }
    }
  }

  /** The shape of an accepted reference with cables. */
  ghost predicate Shape(s: string, v: string, cables: seq<string>, tail: string) {
    && IsVirtual(v) && AreCables(cables)
    && s == v + (Groups(cables) + tail)
    && ((tail == "" && cables != []) || (IsDangling(tail) && (cables == [] ==> |tail| == 3)))
  }

  lemma ShapeParses(s: string, v: string, cables: seq<string>, tail: string)
    requires Shape(s, v, cables, tail) && |s| <= MAX_SIZE
    ensures Parse(s) == Success((IdOf(v), cables))
  {
    var g := Groups(cables) + tail;
    GroupsBegin(cables, tail);
    GroupsParse(cables, tail);
    assert s == v + ['@'] + g[1..];
    FindAt(v, '@', g[1..]);
    assert s[..|v|] == v && s[|v| + 1] == g[1] && s[|v| + 2..] == g[2..];
    if cables != [] {
      assert IsCable(cables[0]);
    }
  }

  lemma NoGroups(cables: seq<string>)
    ensures Groups(cables) == "" <==> cables == []
  {}

  lemma ParsedHasShape(s: string) returns (v: string, tail: string)
    requires '@' in s && Parse(s).Success?
    ensures Shape(s, v, Parse(s).value.1, tail) && Parse(s).value.0 == IdOf(v)
  {
    hide ParseGroups, Groups;
    var pos1 := Find(s, '@');
    v := s[..pos1];
    tail := AcceptedGroups(s[pos1 + 2..]);
    assert s == v + ("@(" + s[pos1 + 2..]);
    NoGroups(Parse(s).value.1);
  }

  /** The identity alone: no group, no parenthesis. */
  predicate OnePart(s: string) {
    |s| >= 3 && '@' !in s && !HasParens(s)
  }

  /**
   * Exactly this is accepted: an identity alone, an identity and cables as they are printed, or that with a dangling
   * group behind it, of at most one character, and of exactly one when there is no cable.
   */
  lemma AcceptedExactly(s: string)
    ensures Parse(s).Success? <==> |s| <= MAX_SIZE && (OnePart(s) || exists v, cables, tail :: Shape(s, v, cables, tail))
  {
    if '@' in s {
      if Parse(s).Success? {
        var v, tail := ParsedHasShape(s);
      }
      if |s| <= MAX_SIZE && exists v, cables, tail :: Shape(s, v, cables, tail) {
        var v, cables, tail :| Shape(s, v, cables, tail);
        ShapeParses(s, v, cables, tail);
      }
    } else {
      forall v, cables, tail ensures !Shape(s, v, cables, tail) {
        if Shape(s, v, cables, tail) {
          GroupsBegin(cables, tail);
        }
      }
    }
  }

  /** Printing and then parsing is the identity. */
  lemma PrintThenParse(r: Reference)
    requires WellFormed(r) && |Print(r)| <= MAX_SIZE
    ensures Parse(Print(r)) == Success(r)
  {
    var v := if r.0 == [] then ANYONE else r.0[0];
    if r.1 == [] {
      assert Print(r) == v;
    } else {
      assert Groups(r.1) + "" == Groups(r.1);
      ShapeParses(Print(r), v, r.1, "");
    }
    assert r.0 != [] ==> r.0 == [v];
  }

  /** Whatever is parsed from a string without a dangling group prints as that string. */
  lemma ParseThenPrint(s: string, v: string, cables: seq<string>)
    requires Shape(s, v, cables, "") && |s| <= MAX_SIZE
    ensures Parse(s).Success? && Print(Parse(s).value) == s && WellFormed(Parse(s).value)
  {
    ShapeParses(s, v, cables, "");
    assert Groups(cables) + "" == Groups(cables);
  }

  // ---------------------------------------------------------------- the loop

  /** One turn of the loop: the cable that starts at `posB`, and where the next one starts unless the end is reached. */
  method ParseGroup(simple: string, posB: nat) returns (r: Result<string>, next: Option<nat>)
    requires posB + 1 < |simple|
    ensures r.Failure? ==> ParseGroups(simple[posB..]) == Failure(r.error)
    ensures r.Success? && next == None ==> ParseGroups(simple[posB..]) == Success([r.value])
    ensures r.Success? && next.Some? ==>
              && posB < next.value <= |simple|
              && ParseGroups(simple[posB..]) == Prepend([r.value], ParseGroups(simple[next.value..]))
  {
    ghost var t := simple[posB..];
    next := None;
    var posX := posB + Find(simple[posB..], ')');
    if posX == |simple| {
      posX := |simple| - 1;
    }
    var partX := simple[posB..posX];
    assert partX == t[..posX - posB] && simple[posX] == t[posX - posB];
    if HasParens(partX) || partX == "" {
      return Failure(InvalidInput), None;
    }
    if simple[posX] != ')' {
      return Failure(InvalidInput), None;
    }
    var pos := posX + 1;
    if !(pos < |simple|) {
      return Success(partX), None;
    }
    if simple[pos] != '@' {
      return Failure(InvalidInput), None;
    }
    pos := pos + 1;
    if pos >= |simple| {
      return Failure(OutOfRange), None;
    }
    if simple[pos] != '(' {
      return Failure(InvalidInput), None;
    }
    pos := pos + 1;
    assert simple[pos..] == t[posX - posB + 3..];
    return Success(partX), Some(pos);
  }

  /** Moves `posB` over the groups and collects the cables. */
  method ParsePeerReference(simple: string) returns (r: Result<Reference>)
    ensures r == Parse(simple)
  {
    hide ParseGroups, HasParens;
    if |simple| > MAX_SIZE || !(|simple| >= 3) {
      return Failure(InvalidInput);
    }
    var pos1 := Find(simple, '@');
    if pos1 == |simple| {
      if HasParens(simple) {
        return Failure(InvalidInput);
      }
      return Success(([simple], []));
    }
    var part1 := simple[..pos1];
    if HasParens(part1) || part1 == "" {
      return Failure(InvalidInput);
    }
    var id: seq<string> := [];
    if part1 != ANYONE {
      id := id + [part1];
    }
    assert id == IdOf(part1);
    var cables: seq<string> := [];
    var sizeBefore := |simple| - 1;
    if !(pos1 + 2 < |simple|) || simple[pos1 + 1] != '(' {
      return Failure(InvalidInput);
    }
    var posB := pos1 + 2;
    ghost var t := simple[posB..];
    PrependNothing(ParseGroups(t));
    while posB < sizeBefore
      invariant posB <= |simple|
      invariant ParseGroups(t) == Prepend(cables, ParseGroups(simple[posB..]))
      decreases |simple| - posB
    {
      var partX, next := ParseGroup(simple, posB);
      if partX.Failure? {
        return Failure(partX.error);
      }
      if next.Some? {
        PrependTwice(cables, [partX.value], ParseGroups(simple[next.value..]));
      }
      cables := cables + [partX.value];
      if next == None {
        return Success((id, cables));
      }
      posB := next.value;
    }
    NoMoreGroups(simple[posB..]);
    assert cables + [] == cables;
    return Success((id, cables));
  }

  lemma NoMoreGroups(t: string)
    requires |t| <= 1
    ensures ParseGroups(t) == Success([])
  {}

  lemma PrependNothing(r: Result<seq<string>>)
    ensures Prepend([], r) == r
  {
    if r.Success? {
      assert [] + r.value == r.value;
    }
  }

  lemma PrependTwice(a: seq<string>, b: seq<string>, r: Result<seq<string>>)
    ensures Prepend(a, Prepend(b, r)) == Prepend(a + b, r)
  {
    if r.Success? {
      assert a + (b + r.value) == a + b + r.value;
    }
  }
}
