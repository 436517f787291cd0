/**
  Control enumeration in two passes over the driver, and the normal form of controls and values.
  The driver is a function from the requested id to its reply; ids are 32-bit.
*/
module Controls {
  import Bits

  const CID_BASE: nat := 0x0098_0900
  const CID_LASTP1: nat := CID_BASE + 43
  const CID_PRIVATE_BASE: nat := 0x0800_0000
  const FLAG_NEXT: nat := 0x8000_0000
  const WIDTH: nat := 0x1_0000_0000

  datatype Type =
    | Integer | Boolean | Menu | Button | Integer64 | CtrlClass | String | Bitmask | IntegerMenu
    | Other(code: nat)

  datatype Ctrl = Ctrl(id: nat, typ: Type, disabled: bool, minimum: int, maximum: int, step: int, name: string)

  /** `Invalid` is a failure with EINVAL, `Failed` any other. */
  datatype Reply = Ok(ctrl: Ctrl) | Invalid | Failed

  type Driver = nat -> Reply

  // ----- What the driver has to offer -----

  predicate Accepts(c: Ctrl) { !c.disabled && c.typ != CtrlClass }

  predicate Offers(driver: Driver, i: nat) { driver(i).Ok? && Accepts(driver(i).ctrl) }

  /** The usable controls among the `n` ids from `i` on. */
  function Span(driver: Driver, i: nat, n: nat): seq<Ctrl> {
    if n == 0 then [] else
      Span(driver, i, n - 1) + if Offers(driver, i + n - 1) then [driver(i + n - 1).ctrl] else []
  }

  function SpanIds(driver: Driver, i: nat, n: nat): seq<nat> {
    if n == 0 then [] else
      SpanIds(driver, i, n - 1) + if Offers(driver, i + n - 1) then [i + n - 1] else []
  }

  /** An answer that does not move on is moved on by hand. */
  function Advance(id: nat, current: nat): nat {
    if id <= current then (id + 1) % WIDTH else id
  }

  function WithNext(id: nat): nat { if id < FLAG_NEXT then id + FLAG_NEXT else id }

  function WithoutNext(id: nat): nat { if id < FLAG_NEXT then id else id - FLAG_NEXT }

  /** The walk with the NEXT flag ends after exactly `n` answers. */
  predicate WalkEnds(driver: Driver, request: nat, current: nat, n: nat)
    decreases n
  {
    if n == 0 then !driver(request).Ok? else
      driver(request).Ok? &&
      var id := Advance(driver(request).ctrl.id, current);
      WalkEnds(driver, WithNext(id), WithoutNext(id), n - 1)
  }

  /** The usable controls of that walk whose ids are not in the list. */
  function Walk(driver: Driver, list: seq<nat>, request: nat, current: nat, n: nat): seq<Ctrl>
    requires WalkEnds(driver, request, current, n)
    decreases n
  {
    if n == 0 then [] else
      var c := driver(request).ctrl;
      var id := Advance(c.id, current);
      (if c.id !in list && Accepts(c) then [c] else []) + Walk(driver, list, WithNext(id), WithoutNext(id), n - 1)
  }

  /** The driver's enumerations are finite, and it answers a plain request with the id asked for. */
  ghost predicate Finite(driver: Driver, p: nat, e: nat) {
    && (forall i :: 0 <= i < FLAG_NEXT && driver(i).Ok? ==> driver(i).ctrl.id == i)
    && CID_PRIVATE_BASE + p < FLAG_NEXT && driver(CID_PRIVATE_BASE + p).Invalid?
    && (forall i :: CID_PRIVATE_BASE <= i < CID_PRIVATE_BASE + p ==> !driver(i).Invalid?)
    && WalkEnds(driver, FLAG_NEXT, 0, e)
  }

  function Listed(driver: Driver, p: nat): seq<nat> {
    SpanIds(driver, CID_BASE, 43) + SpanIds(driver, CID_PRIVATE_BASE, p)
  }

  /** Standard controls, then private ones, then those only the extended walk finds. */
  function All(driver: Driver, p: nat, e: nat): seq<Ctrl>
    requires WalkEnds(driver, FLAG_NEXT, 0, e)
  {
    Span(driver, CID_BASE, 43) + Span(driver, CID_PRIVATE_BASE, p) + Walk(driver, Listed(driver, p), FLAG_NEXT, 0, e)
  }

  lemma {:induction false} SpanPrefix(driver: Driver, i: nat, k: nat, n: nat)
    requires k <= n
    ensures Span(driver, i, k) <= Span(driver, i, n) && SpanIds(driver, i, k) <= SpanIds(driver, i, n)
    ensures |Span(driver, i, k)| == |SpanIds(driver, i, k)| && |Span(driver, i, n)| == |SpanIds(driver, i, n)|
    decreases n
  {
    if k < n {
      SpanPrefix(driver, i, k, n - 1);
    } else if n > 0 {
      SpanPrefix(driver, i, n - 1, n - 1);
    }
  }

  lemma SpanStep(driver: Driver, i: nat, n: nat)
    ensures Span(driver, i, 0) == [] && SpanIds(driver, i, 0) == []
    ensures Span(driver, i, n + 1) == Span(driver, i, n) + (if Offers(driver, i + n) then [driver(i + n).ctrl] else [])
    ensures SpanIds(driver, i, n + 1) == SpanIds(driver, i, n) + (if Offers(driver, i + n) then [i + n] else [])
  {
  }

  /** What the walk adds for one answer. */
  function Fresh(c: Ctrl, list: seq<nat>): seq<Ctrl> {
    if c.id !in list && Accepts(c) then [c] else []
  }

  lemma WalkStep(driver: Driver, list: seq<nat>, request: nat, current: nat, n: nat)
    requires WalkEnds(driver, request, current, n)
    ensures n > 0 <==> driver(request).Ok?
    ensures n == 0 ==> Walk(driver, list, request, current, n) == []
    ensures n > 0 ==>
      var id := Advance(driver(request).ctrl.id, current);
      WalkEnds(driver, WithNext(id), WithoutNext(id), n - 1)
      && Walk(driver, list, request, current, n)
         == Fresh(driver(request).ctrl, list) + Walk(driver, list, WithNext(id), WithoutNext(id), n - 1)
  {
  }

  // ----- Counting -----

  method HasId(list: seq<nat>, id: nat) returns (found: bool)
    ensures found <==> id in list
  {
    var k := 0;
    while k < |list|
      invariant k <= |list| && id !in list[..k]
    {
      if list[k] == id {
        return true;
      }
      k := k + 1;
    }
    return false;
  }

  /** The first pass: how many controls there are. */
  method CountControls(driver: Driver, ghost p: nat, ghost e: nat) returns (count: nat)
    requires Finite(driver, p, e)
    ensures count == |All(driver, p, e)|
  {
    hide Span, SpanIds, Walk, WalkEnds, Advance, WithNext, WithoutNext;
    var list: seq<nat> := [];
    count := 0;
    SpanStep(driver, CID_BASE, 0);
    SpanStep(driver, CID_PRIVATE_BASE, 0);
    var i := CID_BASE;
    while i < CID_LASTP1
      invariant CID_BASE <= i <= CID_LASTP1
      invariant count == |Span(driver, CID_BASE, i - CID_BASE)| && list == SpanIds(driver, CID_BASE, i - CID_BASE)
    {
      SpanStep(driver, CID_BASE, i - CID_BASE);
      var reply := driver(i);
      if reply.Ok? && Accepts(reply.ctrl) {
        count := count + 1;
        list := list + [i];
      }
      i := i + 1;
    }
    ghost var std, stdCount := list, count;
    var id := CID_PRIVATE_BASE;
    while true
      invariant CID_PRIVATE_BASE <= id <= CID_PRIVATE_BASE + p
      invariant count == stdCount + |Span(driver, CID_PRIVATE_BASE, id - CID_PRIVATE_BASE)|
      invariant list == std + SpanIds(driver, CID_PRIVATE_BASE, id - CID_PRIVATE_BASE)
      decreases CID_PRIVATE_BASE + p - id
    {
      SpanStep(driver, CID_PRIVATE_BASE, id - CID_PRIVATE_BASE);
      var reply := driver(id);
      if reply.Ok? {
        id := reply.ctrl.id;
        if Accepts(reply.ctrl) {
          count := count + 1;
          list := list + [id];
        }
      } else if reply.Invalid? {
        break;
      }
      id := id + 1;
    }
    count := CountWalk(driver, list, count, e);
  }

  /** The extended walk of the first pass. */
  method CountWalk(driver: Driver, list: seq<nat>, start: nat, ghost e: nat) returns (count: nat)
    requires WalkEnds(driver, FLAG_NEXT, 0, e)
    ensures count == start + |Walk(driver, list, FLAG_NEXT, 0, e)|
  {
    hide Walk, WalkEnds, Advance, WithNext, WithoutNext;
    count := start;
    var request, current := FLAG_NEXT, 0;
    ghost var n := e;
    WalkStep(driver, list, request, current, n);
    while driver(request).Ok?
      invariant WalkEnds(driver, request, current, n) && (n > 0 <==> driver(request).Ok?)
      invariant count + |Walk(driver, list, request, current, n)| == start + |Walk(driver, list, FLAG_NEXT, 0, e)|
      decreases n
    {
      WalkStep(driver, list, request, current, n);
      var c := driver(request).ctrl;
      var known := HasId(list, c.id);
      if !known && Accepts(c) {
        count := count + 1;
      }
      var id := Advance(c.id, current);
      current, request := WithoutNext(id), WithNext(id);
      n := n - 1;
      WalkStep(driver, list, request, current, n);
    }
    WalkStep(driver, list, request, current, n);
  }

  // ----- Normal form -----

  /** The normal form of a control. */
  function Fixed(c: Ctrl): Ctrl {
    match c.typ
    case Integer => c.(step := if c.step == 0 then 1 else c.step, minimum := Min(c.minimum, c.maximum),
                       maximum := Max(c.minimum, c.maximum))
    case Menu => c.(step := if c.step == 0 then 1 else c.step)
    case IntegerMenu => c.(step := if c.step == 0 then 1 else c.step)
    case Boolean => c.(step := 1, minimum := 0, maximum := 1)
    case Button => c.(step := 0, minimum := 0, maximum := 0)
    case Integer64 => c.(step := 1, minimum := 0, maximum := 0)
    case Bitmask => c.(minimum := 0)
    case _ => c
  }

  function Min(a: int, b: int): int { if a <= b then a else b }
  function Max(a: int, b: int): int { if a <= b then b else a }

  /** Repairing a control in place, one field at a time. */
  method FixQuirkyStruct(controls: array<Ctrl>, k: nat)
    requires k < controls.Length
    modifies controls
    ensures controls[k] == Fixed(old(controls[k]))
    ensures forall i :: 0 <= i < controls.Length && i != k ==> controls[i] == old(controls[i])
  {
    var v := controls[k];
    if v.typ == Integer {
      if v.step == 0 {
        v := v.(step := 1);
      }
      if v.minimum > v.maximum {
        var temp := v.maximum;
        v := v.(maximum := v.minimum);
        v := v.(minimum := temp);
      }
    } else if v.typ == Menu || v.typ == IntegerMenu {
      if v.step == 0 {
        v := v.(step := 1);
      }
    } else if v.typ == Boolean {
      if v.step != 1 {
        v := v.(step := 1);
      }
      if v.minimum != 0 {
        v := v.(minimum := 0);
      }
      if v.maximum != 1 {
        v := v.(maximum := 1);
      }
    } else if v.typ == Button {
      if v.step != 0 {
        v := v.(step := 0);
      }
      if v.minimum != 0 {
        v := v.(minimum := 0);
      }
      if v.maximum != 0 {
        v := v.(maximum := 0);
      }
    } else if v.typ == Integer64 {
      v := v.(step := 1, minimum := 0, maximum := 0);
    } else if v.typ == Bitmask {
      if v.minimum != 0 {
        v := v.(minimum := 0);
      }
    }
    controls[k] := v;
  }

  /** A control the repair leaves alone: a usable step, and a range that is not empty where the type has one. */
  predicate Normal(c: Ctrl) {
    && (c.typ == Integer ==> c.step != 0 && c.minimum <= c.maximum)
    && (c.typ == Menu || c.typ == IntegerMenu ==> c.step != 0)
    && (c.typ == Boolean ==> c.step == 1 && c.minimum == 0 && c.maximum == 1)
    && (c.typ == Button ==> c.step == 0 && c.minimum == 0 && c.maximum == 0)
    && (c.typ == Integer64 ==> c.step == 1 && c.minimum == 0 && c.maximum == 0)
    && (c.typ == Bitmask ==> c.minimum == 0)
  }

  /** Repair reaches the normal form, changes nothing that has it, and so is idempotent; identity is kept. */
  lemma NormalForm(c: Ctrl)
    ensures Normal(Fixed(c)) && (Fixed(c) == c <==> Normal(c)) && Fixed(Fixed(c)) == Fixed(c)
    ensures Fixed(c).id == c.id && Fixed(c).typ == c.typ && Fixed(c).name == c.name
    ensures c.typ == Integer ==>
      {Fixed(c).minimum, Fixed(c).maximum} == {c.minimum, c.maximum} && Fixed(c).minimum <= Fixed(c).maximum
    ensures c.typ in {Integer, Menu, IntegerMenu} ==> Fixed(c).step == if c.step == 0 then 1 else c.step
    ensures c.typ == Boolean ==> Fixed(c).step == 1 && Fixed(c).minimum == 0 && Fixed(c).maximum == 1
    ensures c.typ == Button ==> Fixed(c).step == Fixed(c).minimum == Fixed(c).maximum == 0
    ensures c.typ == Integer64 ==> Fixed(c).step == 1 && Fixed(c).minimum == Fixed(c).maximum == 0
    ensures c.typ == Bitmask ==> Fixed(c).minimum == 0 && Fixed(c).maximum == c.maximum && Fixed(c).step == c.step
    ensures c.typ in {Menu, IntegerMenu} ==> Fixed(c).minimum == c.minimum && Fixed(c).maximum == c.maximum
  {
    assert {c.minimum, c.maximum} == {c.maximum, c.minimum};
  }

  function Unsigned(v: int): int { v % WIDTH }

  /** `fix_quirky_values`. */
  function Clamp(c: Ctrl, v: int): int {
    if c.typ in {Integer, Boolean, Menu, Button, IntegerMenu} then
      (if v < c.minimum then c.minimum else if v > c.maximum then c.maximum else v)
    else if c.typ == Bitmask then (if Unsigned(v) > Unsigned(c.maximum) then c.maximum else v)
    else v
  }

  /** The range check of `set_control_value` for a number. */
  predicate InRange(c: Ctrl, v: int) {
    c.typ in {Integer, Boolean, Menu, Button} ==> c.minimum <= v <= c.maximum
  }

  /** A clamped value passes the range check exactly when the control is no menu with an empty range. */
  lemma ClampedAccepted(c: Ctrl, v: int)
    ensures InRange(Fixed(c), Clamp(Fixed(c), v)) <==> !(c.typ == Menu && c.minimum > c.maximum)
    ensures InRange(Fixed(c), v) && c.typ != Bitmask && c.typ != IntegerMenu ==> Clamp(Fixed(c), v) == v
    ensures InRange(Fixed(c), Clamp(Fixed(c), v)) && c.typ != IntegerMenu ==>
      Clamp(Fixed(c), Clamp(Fixed(c), v)) == Clamp(Fixed(c), v)
  {
    NormalForm(c);
  }

  /** A value out of range becomes the nearer end of the range. */
  lemma ClampedToNearest(c: Ctrl, v: int)
    requires c.typ in {Integer, Boolean, Menu, Button, IntegerMenu} && Fixed(c).minimum <= Fixed(c).maximum
    ensures v < Fixed(c).minimum ==> Clamp(Fixed(c), v) == Fixed(c).minimum
    ensures v > Fixed(c).maximum ==> Clamp(Fixed(c), v) == Fixed(c).maximum
  {
  }

  // ----- Creating -----

  function FixedAll(s: seq<Ctrl>): (r: seq<Ctrl>)
    ensures |r| == |s|
  {
    seq(|s|, i requires 0 <= i < |s| => Fixed(s[i]))
  }

  /** The controls stored so far. */
  ghost predicate Holds(controls: seq<Ctrl>, count: nat, s: seq<Ctrl>) {
    count == |s| <= |controls| && controls[..count] == FixedAll(s)
  }

  lemma HoldsSnoc(a: seq<Ctrl>, b: seq<Ctrl>, count: nat, s: seq<Ctrl>, c: Ctrl)
    requires Holds(a, count, s) && count < |a| == |b| && b[..count] == a[..count] && b[count] == Fixed(c)
    ensures Holds(b, count + 1, s + [c])
  {
    assert b[..count + 1] == b[..count] + [b[count]];
  }

  lemma HoldsSame(a: seq<Ctrl>, b: seq<Ctrl>, count: nat, s: seq<Ctrl>)
    requires Holds(a, count, s) && count <= |b| && b[..count] == a[..count]
    ensures Holds(b, count, s)
  {
  }

  /** Storing an answer in the next slot: kept and repaired, or left there to be overwritten. */
  method Store(controls: array<Ctrl>, count: nat, c: Ctrl, ghost s: seq<Ctrl>) returns (next: nat)
    requires count < controls.Length && Holds(controls[..], count, s)
    modifies controls
    ensures next == count + if Accepts(c) then 1 else 0
    ensures Holds(controls[..], next, s + if Accepts(c) then [c] else [])
    ensures forall k :: count < k < controls.Length ==> controls[k] == old(controls[k])
  {
    ghost var before := controls[..];
    controls[count] := c;
    next := count;
    if Accepts(c) {
      FixQuirkyStruct(controls, count);
      next := count + 1;
      HoldsSnoc(before, controls[..], count, s, c);
    } else {
      HoldsSame(before, controls[..], count, s);
    }
  }

  /** A walk over plain ids that stopped because the slots are used up has missed nothing. */
  lemma NothingMissed(driver: Driver, i: nat, k: nat, n: nat, before: nat, after: nat, slots: nat)
    requires k <= n && before + |Span(driver, i, n)| + after <= slots
    requires k == n || before + |Span(driver, i, k)| == slots
    ensures Span(driver, i, k) == Span(driver, i, n) && SpanIds(driver, i, k) == SpanIds(driver, i, n)
  {
    SpanPrefix(driver, i, k, n);
  }

  /** Nor do the slots run out before a walk is over. */
  lemma RoomLeft(driver: Driver, i: nat, k: nat, n: nat)
    requires k <= n
    ensures |Span(driver, i, k)| <= |Span(driver, i, n)|
  {
    SpanPrefix(driver, i, k, n);
  }

  /** The second pass: the slots hold exactly the controls that were counted, in order and repaired. */
  method CreateControls(driver: Driver, controls: array<Ctrl>, ghost p: nat, ghost e: nat) returns (count: nat)
    requires Finite(driver, p, e) && |All(driver, p, e)| <= controls.Length
    modifies controls
    ensures Holds(controls[..], count, All(driver, p, e))
    ensures forall k :: count < k < controls.Length ==> controls[k] == old(controls[k])
  {
    hide Span, SpanIds, Walk, WalkEnds, Holds, Accepts;
    ghost var ext := |Walk(driver, Listed(driver, p), FLAG_NEXT, 0, e)|;
    var list: seq<nat>;
    count, list := CreateStandard(driver, controls, |Span(driver, CID_PRIVATE_BASE, p)| + ext);
    HoldsCount(controls[..], count, Span(driver, CID_BASE, 43));
    ghost var std := Span(driver, CID_BASE, 43);
    count, list := CreatePrivate(driver, controls, count, list, std, p, ext);
    HoldsCount(controls[..], count, std + Span(driver, CID_PRIVATE_BASE, p));
    count := CreateWalk(driver, list, controls, count, std + Span(driver, CID_PRIVATE_BASE, p), e);
  }

  method CreateStandard(driver: Driver, controls: array<Ctrl>, ghost after: nat) returns (count: nat, list: seq<nat>)
    requires |Span(driver, CID_BASE, 43)| + after <= controls.Length
    modifies controls
    ensures Holds(controls[..], count, Span(driver, CID_BASE, 43)) && list == SpanIds(driver, CID_BASE, 43)
    ensures forall k :: count < k < controls.Length ==> controls[k] == old(controls[k])
  {
    hide Span, SpanIds, Holds, Accepts;
    list, count := [], 0;
    SpanStep(driver, CID_BASE, 0);
    HoldsNone(controls[..]);
    var i := CID_BASE;
    while i < CID_LASTP1 && count < controls.Length
      invariant CID_BASE <= i <= CID_LASTP1 && count == |Span(driver, CID_BASE, i - CID_BASE)|
      invariant Holds(controls[..], count, Span(driver, CID_BASE, i - CID_BASE))
      invariant list == SpanIds(driver, CID_BASE, i - CID_BASE)
      invariant forall k :: count < k < controls.Length ==> controls[k] == old(controls[k])
    {
      SpanStep(driver, CID_BASE, i - CID_BASE);
      RoomLeft(driver, CID_BASE, i - CID_BASE + 1, 43);
      ghost var s, d := Span(driver, CID_BASE, i - CID_BASE), controls[..];
      controls[count] := controls[count].(id := i);
      HoldsSame(d, controls[..], count, s);
      assert s + [] == s && list + [] == list;
      var reply := driver(i);
      if reply.Ok? {
        count := Store(controls, count, reply.ctrl, s);
        if Accepts(reply.ctrl) {
          list := list + [i];
        }
      }
      i := i + 1;
    }
    RoomLeft(driver, CID_BASE, i - CID_BASE, 43);
    NothingMissed(driver, CID_BASE, i - CID_BASE, 43, 0, after, controls.Length);
  }

  lemma HoldsNone(a: seq<Ctrl>)
    ensures Holds(a, 0, [])
  {
  }

  method CreatePrivate(driver: Driver, controls: array<Ctrl>, start: nat, before: seq<nat>, ghost s: seq<Ctrl>,
                       ghost p: nat, ghost after: nat) returns (count: nat, list: seq<nat>)
    requires forall i :: 0 <= i < FLAG_NEXT && driver(i).Ok? ==> driver(i).ctrl.id == i
    requires CID_PRIVATE_BASE + p < FLAG_NEXT && driver(CID_PRIVATE_BASE + p).Invalid?
    requires forall i :: CID_PRIVATE_BASE <= i < CID_PRIVATE_BASE + p ==> !driver(i).Invalid?
    requires Holds(controls[..], start, s) && start + |Span(driver, CID_PRIVATE_BASE, p)| + after <= controls.Length
    modifies controls
    ensures Holds(controls[..], count, s + Span(driver, CID_PRIVATE_BASE, p))
    ensures list == before + SpanIds(driver, CID_PRIVATE_BASE, p) && count >= start
    ensures forall k :: count < k < controls.Length ==> controls[k] == old(controls[k])
  {
    hide Span, SpanIds, Holds, Accepts;
    list, count := before, start;
    SpanStep(driver, CID_PRIVATE_BASE, 0);
    assert s + [] == s && list + [] == list;
    HoldsCount(controls[..], start, s);
    var i := CID_PRIVATE_BASE;
    while count < controls.Length
      invariant CID_PRIVATE_BASE <= i <= CID_PRIVATE_BASE + p
      invariant count == start + |Span(driver, CID_PRIVATE_BASE, i - CID_PRIVATE_BASE)|
      invariant Holds(controls[..], count, s + Span(driver, CID_PRIVATE_BASE, i - CID_PRIVATE_BASE))
      invariant list == before + SpanIds(driver, CID_PRIVATE_BASE, i - CID_PRIVATE_BASE)
      invariant forall k :: count < k < controls.Length ==> controls[k] == old(controls[k])
      decreases CID_PRIVATE_BASE + p - i
    {
      ghost var j := i - CID_PRIVATE_BASE;
      SpanStep(driver, CID_PRIVATE_BASE, j);
      ghost var t, d := s + Span(driver, CID_PRIVATE_BASE, j), controls[..];
      controls[count] := controls[count].(id := i);
      HoldsSame(d, controls[..], count, t);
      AppendStep(s, Span(driver, CID_PRIVATE_BASE, j), driver(i), before, SpanIds(driver, CID_PRIVATE_BASE, j), i);
      var reply := driver(i);
      if reply.Ok? {
        count := Store(controls, count, reply.ctrl, t);
        if Accepts(reply.ctrl) {
          list := list + [i];
        }
      } else if reply.Invalid? {
        break;
      }
      i := i + 1;
    }
    RoomLeft(driver, CID_PRIVATE_BASE, i - CID_PRIVATE_BASE, p);
    NothingMissed(driver, CID_PRIVATE_BASE, i - CID_PRIVATE_BASE, p, start, after, controls.Length);
  }

  lemma HoldsCount(a: seq<Ctrl>, count: nat, s: seq<Ctrl>)
    requires Holds(a, count, s)
    ensures count == |s| <= |a|
  {
  }

  lemma AppendStep(s: seq<Ctrl>, t: seq<Ctrl>, reply: Reply, a: seq<nat>, b: seq<nat>, i: nat)
    ensures reply.Ok? ==>
      (s + t) + (if Accepts(reply.ctrl) then [reply.ctrl] else []) ==
        s + (t + if Accepts(reply.ctrl) then [reply.ctrl] else [])
    ensures s + (t + []) == s + t && (a + b) + [i] == a + (b + [i]) && a + (b + []) == a + b
  {
  }

  method CreateWalk(driver: Driver, list: seq<nat>, controls: array<Ctrl>, start: nat, ghost s: seq<Ctrl>, ghost e: nat)
    returns (count: nat)
    requires WalkEnds(driver, FLAG_NEXT, 0, e) && Holds(controls[..], start, s)
    requires start + |Walk(driver, list, FLAG_NEXT, 0, e)| <= controls.Length
    modifies controls
    ensures Holds(controls[..], count, s + Walk(driver, list, FLAG_NEXT, 0, e)) && count >= start
    ensures forall k :: count <= k < controls.Length ==> controls[k] == old(controls[k])
  {
    hide Walk, WalkEnds, Advance, WithNext, WithoutNext, Holds, Accepts;
    count := start;
    HoldsCount(controls[..], start, s);
    var request, current := FLAG_NEXT, 0;
    ghost var n, done, all := e, s, s + Walk(driver, list, FLAG_NEXT, 0, e);
    WalkStep(driver, list, request, current, n);
    while driver(request).Ok?
      invariant WalkEnds(driver, request, current, n) && (n > 0 <==> driver(request).Ok?)
      invariant Holds(controls[..], count, done) && done + Walk(driver, list, request, current, n) == all
      invariant start <= count && count + |Walk(driver, list, request, current, n)| <= controls.Length
      invariant forall k :: count <= k < controls.Length ==> controls[k] == old(controls[k])
      decreases n
    {
      WalkStep(driver, list, request, current, n);
      var c := driver(request).ctrl;
      var known := HasId(list, c.id);
      if !known && Accepts(c) {
        count := Store(controls, count, c, done);
        done := done + [c];
      }
      var id := Advance(c.id, current);
      current, request := WithoutNext(id), WithNext(id);
      n := n - 1;
      WalkStep(driver, list, request, current, n);
    }
    WalkStep(driver, list, request, current, n);
    assert done + [] == done;
  }

  /**
    Sizing, allocating and filling the list: the slots behind the counted controls are left for the
    driver probes' own controls.
  */
  method GetControlList(driver: Driver, probeControls: nat, blank: Ctrl, ghost p: nat, ghost e: nat)
    returns (controls: array<Ctrl>, count: nat)
    requires Finite(driver, p, e)
    ensures fresh(controls) && controls.Length == |All(driver, p, e)| + probeControls
    ensures count == |All(driver, p, e)| && controls[..count] == FixedAll(All(driver, p, e))
  {
    hide All;
    count := CountControls(driver, p, e);
    controls := new Ctrl[count + probeControls](_ => blank);
    if count + probeControls > 0 {
      count := CreateControls(driver, controls, p, e);
    } else {
      assert controls[..0] == FixedAll(All(driver, p, e));
    }
  }

  ghost predicate Increasing(s: seq<Ctrl>, above: int) {
    && (forall i :: 0 <= i < |s| ==> s[i].id > above)
    && (forall i, j :: 0 <= i < j < |s| ==> s[i].id < s[j].id)
  }

  lemma {:induction false} SpanIncreasing(driver: Driver, i: nat, n: nat)
    requires forall k :: i <= k < i + n && driver(k).Ok? ==> driver(k).ctrl.id == k
    ensures Increasing(Span(driver, i, n), i - 1)
    ensures forall c :: c in Span(driver, i, n) ==> c.id < i + n && c.id in SpanIds(driver, i, n)
  {
    if n > 0 {
      SpanIncreasing(driver, i, n - 1);
    }
  }

  lemma {:induction false} WalkIncreasing(driver: Driver, list: seq<nat>, request: nat, n: nat)
    requires FLAG_NEXT <= request < WIDTH && WalkEnds(driver, request, request - FLAG_NEXT, n)
    requires forall r :: FLAG_NEXT <= r < WIDTH && driver(r).Ok? ==> r - FLAG_NEXT < driver(r).ctrl.id < FLAG_NEXT
    ensures Increasing(Walk(driver, list, request, request - FLAG_NEXT, n), request - FLAG_NEXT)
    ensures forall c :: c in Walk(driver, list, request, request - FLAG_NEXT, n) ==> c.id !in list
    decreases n
  {
    if n > 0 {
      WalkIncreasing(driver, list, WithNext(driver(request).ctrl.id), n - 1);
    }
  }

  /** With a driver whose extended answers move on, no two of the controls have the same id. */
  lemma IdsDistinct(driver: Driver, p: nat, e: nat, i: nat, j: nat)
    requires Finite(driver, p, e) && i < j < |All(driver, p, e)|
    requires forall r :: FLAG_NEXT <= r < WIDTH && driver(r).Ok? ==> r - FLAG_NEXT < driver(r).ctrl.id < FLAG_NEXT
    ensures All(driver, p, e)[i].id != All(driver, p, e)[j].id
  {
    hide Span, SpanIds, Walk, WalkEnds;
    SpanIncreasing(driver, CID_BASE, 43);
    SpanIncreasing(driver, CID_PRIVATE_BASE, p);
    WalkIncreasing(driver, Listed(driver, p), FLAG_NEXT, e);
    var s, t := Span(driver, CID_BASE, 43), Span(driver, CID_PRIVATE_BASE, p);
    var w := Walk(driver, Listed(driver, p), FLAG_NEXT, 0, e);
    if j < |s| {
    } else if j < |s| + |t| {
      assert All(driver, p, e)[j] == t[j - |s|] && All(driver, p, e)[i] == if i < |s| then s[i] else t[i - |s|];
    } else {
      assert All(driver, p, e)[j] == w[j - |s| - |t|];
      assert i >= |s| + |t| ==> All(driver, p, e)[i] == w[i - |s| - |t|];
      assert i < |s| ==> s[i] in s;
      assert |s| <= i < |s| + |t| ==> All(driver, p, e)[i] == t[i - |s|] && t[i - |s|] in t;
    }
  }

  /** No answer to a NEXT request lies behind what was asked for; it may repeat it. */
  ghost predicate NeverGoesBack(driver: Driver) {
    forall r :: FLAG_NEXT <= r < WIDTH && driver(r).Ok? ==> r - FLAG_NEXT <= driver(r).ctrl.id < FLAG_NEXT - 1
  }

  /** The hand-made advance makes the walk end with every such driver, also one that repeats the id it was asked for. */
  lemma {:induction false} WalkTerminates(driver: Driver, current: nat) returns (n: nat)
    requires NeverGoesBack(driver) && current < FLAG_NEXT
    ensures WalkEnds(driver, FLAG_NEXT + current, current, n)
    decreases FLAG_NEXT - current
  {
    if driver(FLAG_NEXT + current).Ok? {
      var id := Advance(driver(FLAG_NEXT + current).ctrl.id, current);
      n := WalkTerminates(driver, id);
      n := n + 1;
    } else {
      n := 0;
    }
  }

  /** Some answers may fall back, but by one at most. */
  ghost predicate FallsBackByOne(driver: Driver) {
    forall r :: FLAG_NEXT <= r < WIDTH && driver(r).Ok? ==> r - FLAG_NEXT - 1 <= driver(r).ctrl.id < FLAG_NEXT - 1
  }

  /** From this request, `k` answers lead to the request for the id behind `c`. */
  predicate Reaches(driver: Driver, request: nat, current: nat, k: nat, c: nat)
    decreases k
  {
    if k == 0 then request == FLAG_NEXT + c && current == c else
      driver(request).Ok? &&
      var id := Advance(driver(request).ctrl.id, current);
      Reaches(driver, WithNext(id), WithoutNext(id), k - 1, c)
  }

  /** The answer to this request makes the walk repeat it: the advance by one undoes the fall. */
  predicate Stuck(driver: Driver, c: nat) {
    c > 0 && driver(FLAG_NEXT + c).Ok? && driver(FLAG_NEXT + c).ctrl.id == c - 1
  }

  lemma {:induction false} StuckThere(driver: Driver, c: nat, n: nat)
    requires c < FLAG_NEXT && Stuck(driver, c)
    ensures !WalkEnds(driver, FLAG_NEXT + c, c, n)
    decreases n
  {
    if n > 0 {
      assert Advance(c - 1, c) == c;
      StuckThere(driver, c, n - 1);
    }
  }

  /** A walk that gets to a stuck request never ends, whatever the driver answers elsewhere. */
  lemma {:induction false} StuckAhead(driver: Driver, request: nat, current: nat, k: nat, c: nat, n: nat)
    requires c < FLAG_NEXT && Reaches(driver, request, current, k, c) && Stuck(driver, c)
    ensures !WalkEnds(driver, request, current, n)
    decreases k
  {
    if k == 0 {
      StuckThere(driver, c, n);
    } else if n > 0 {
      var id := Advance(driver(request).ctrl.id, current);
      StuckAhead(driver, WithNext(id), WithoutNext(id), k - 1, c, n - 1);
    }
  }

  /** Either the walk ends, or it gets to a stuck request. */
  lemma {:induction false} EndsOrSticks(driver: Driver, current: nat) returns (n: nat, k: nat, c: nat)
    requires FallsBackByOne(driver) && current < FLAG_NEXT
    ensures WalkEnds(driver, FLAG_NEXT + current, current, n)
         || (c < FLAG_NEXT && Reaches(driver, FLAG_NEXT + current, current, k, c) && Stuck(driver, c))
    decreases FLAG_NEXT - current
  {
    n, k, c := 0, 0, current;
    if driver(FLAG_NEXT + current).Ok? && !Stuck(driver, current) {
      var id := Advance(driver(FLAG_NEXT + current).ctrl.id, current);
      n, k, c := EndsOrSticks(driver, id);
      n, k := n + 1, k + 1;
    }
  }

  ghost predicate GetsStuck(driver: Driver) {
    exists k: nat, c: nat :: StuckAfter(driver, k, c)
  }

  ghost predicate StuckAfter(driver: Driver, k: nat, c: nat) {
    c < FLAG_NEXT && Reaches(driver, FLAG_NEXT, 0, k, c) && Stuck(driver, c)
  }

  ghost predicate Ends(driver: Driver) {
    exists n: nat :: WalkEnds(driver, FLAG_NEXT, 0, n)
  }

  /**
    The walk of the code ends exactly if it never gets to a request that the driver answers with the id
    before the one asked for; of drivers whose answers fall back by no more than that.
  */
  lemma WalkEndsUnlessStuck(driver: Driver)
    requires FallsBackByOne(driver)
    ensures Ends(driver) <==> !GetsStuck(driver)
  {
    var n, k, c := EndsOrSticks(driver, 0);
    if GetsStuck(driver) {
      var k: nat, c: nat :| StuckAfter(driver, k, c);
      forall n: nat
        ensures !WalkEnds(driver, FLAG_NEXT, 0, n)
      {
        StuckAhead(driver, FLAG_NEXT, 0, k, c, n);
      }
    } else {
      assert !StuckAfter(driver, k, c);
      assert WalkEnds(driver, FLAG_NEXT, 0, n);
    }
  }

  /** A driver that never goes back does not get stuck. */
  lemma NeverStuck(driver: Driver)
    requires NeverGoesBack(driver)
    ensures FallsBackByOne(driver) && Ends(driver) && !GetsStuck(driver)
  {
    WalkEndsUnlessStuck(driver);
  }

  /** A driver whose only extended control has the id `id`, and that offers it again to the request for the next one. */
  function RepeatsLast(ctrl: Ctrl): Driver {
    (r: nat) => if FLAG_NEXT <= r <= FLAG_NEXT + ctrl.id + 1 then Ok(ctrl) else Invalid
  }

  /** The walk of the code never ends with such a driver. */
  lemma StuckDriver(ctrl: Ctrl)
    requires 0 < ctrl.id < FLAG_NEXT - 2
    ensures FallsBackByOne(RepeatsLast(ctrl)) && !Ends(RepeatsLast(ctrl))
  {
    var driver, c := RepeatsLast(ctrl), ctrl.id;
    assert Reaches(driver, FLAG_NEXT + c + 1, c + 1, 0, c + 1);
    assert Advance(c, c) == c + 1;
    assert Reaches(driver, FLAG_NEXT + c, c, 1, c + 1);
    assert Advance(c, 0) == c;
    assert Reaches(driver, FLAG_NEXT, 0, 2, c + 1);
    assert StuckAfter(driver, 2, c + 1);
    WalkEndsUnlessStuck(driver);
  }

  /** So all enumerations are finite for a driver that echoes plain ids, has a last private one and never goes back. */
  lemma EnumerationsFinite(driver: Driver, last: nat) returns (p: nat, e: nat)
    requires forall i :: 0 <= i < FLAG_NEXT && driver(i).Ok? ==> driver(i).ctrl.id == i
    requires CID_PRIVATE_BASE + last < FLAG_NEXT && driver(CID_PRIVATE_BASE + last).Invalid? && NeverGoesBack(driver)
    ensures Finite(driver, p, e) && p <= last
  {
    p := FirstInvalid(driver, 0, last);
    e := WalkTerminates(driver, 0);
  }

  lemma {:induction false} FirstInvalid(driver: Driver, k: nat, last: nat) returns (p: nat)
    requires k <= last && driver(CID_PRIVATE_BASE + last).Invalid?
    ensures k <= p <= last && driver(CID_PRIVATE_BASE + p).Invalid?
    ensures forall i :: CID_PRIVATE_BASE + k <= i < CID_PRIVATE_BASE + p ==> !driver(i).Invalid?
    decreases last - k
  {
    p := k;
    if !driver(CID_PRIVATE_BASE + k).Invalid? {
      p := FirstInvalid(driver, k + 1, last);
    }
  }

  // ----- Which controls are listed -----

  lemma {:induction false} SpanMembers(driver: Driver, i: nat, n: nat)
    ensures forall c | c in Span(driver, i, n) :: Accepts(c) && exists r :: driver(r) == Ok(c)
    ensures forall r | i <= r < i + n && Offers(driver, r) :: driver(r).ctrl in Span(driver, i, n)
    ensures forall r | r in SpanIds(driver, i, n) :: i <= r < i + n && Offers(driver, r)
  {
    if n > 0 {
      SpanMembers(driver, i, n - 1);
      assert driver(i + n - 1).Ok? ==> driver(i + n - 1) == Ok(driver(i + n - 1).ctrl);
    }
  }

  lemma {:induction false} WalkMembers(driver: Driver, list: seq<nat>, request: nat, current: nat, n: nat)
    requires WalkEnds(driver, request, current, n)
    ensures forall c | c in Walk(driver, list, request, current, n) :: Accepts(c) && exists r :: driver(r) == Ok(c)
    decreases n
  {
    if n > 0 {
      var id := Advance(driver(request).ctrl.id, current);
      WalkMembers(driver, list, WithNext(id), WithoutNext(id), n - 1);
      assert driver(request) == Ok(driver(request).ctrl);
    }
  }

  /** A request the walk gets to, and is answered. */
  lemma {:induction false} WalkVisits(driver: Driver, list: seq<nat>, request: nat, current: nat, n: nat, k: nat,
                                      c: nat)
    requires WalkEnds(driver, request, current, n) && Reaches(driver, request, current, k, c)
    requires Offers(driver, FLAG_NEXT + c) && driver(FLAG_NEXT + c).ctrl.id !in list
    ensures driver(FLAG_NEXT + c).ctrl in Walk(driver, list, request, current, n)
    decreases k
  {
    if k > 0 {
      var id := Advance(driver(request).ctrl.id, current);
      WalkVisits(driver, list, WithNext(id), WithoutNext(id), n - 1, k - 1, c);
    }
  }

  /** Each control listed is an answer of the driver's, in use and no class of controls. */
  lemma OnlyOffered(driver: Driver, p: nat, e: nat, c: Ctrl)
    requires Finite(driver, p, e) && c in All(driver, p, e)
    ensures !c.disabled && c.typ != CtrlClass && exists r :: driver(r) == Ok(c)
  {
    SpanMembers(driver, CID_BASE, 43);
    SpanMembers(driver, CID_PRIVATE_BASE, p);
    WalkMembers(driver, Listed(driver, p), FLAG_NEXT, 0, e);
  }

  /** Each such answer to a request for a standard or private id is listed. */
  lemma AllPlainListed(driver: Driver, p: nat, e: nat, i: nat)
    requires Finite(driver, p, e) && driver(i).Ok? && !driver(i).ctrl.disabled && driver(i).ctrl.typ != CtrlClass
    requires 0x0098_0900 <= i < 0x0098_092B || 0x0800_0000 <= i < 0x0800_0000 + p
    ensures driver(i).ctrl in All(driver, p, e)
  {
    SpanMembers(driver, CID_BASE, 43);
    SpanMembers(driver, CID_PRIVATE_BASE, p);
  }

  /** Of each such answer the extended walk gets there is a control with its id. */
  lemma AllExtendedListed(driver: Driver, p: nat, e: nat, k: nat, c: nat)
    requires Finite(driver, p, e) && Reaches(driver, 0x8000_0000, 0, k, c) && driver(0x8000_0000 + c).Ok?
    requires !driver(0x8000_0000 + c).ctrl.disabled && driver(0x8000_0000 + c).ctrl.typ != CtrlClass
    ensures exists d :: d in All(driver, p, e) && d.id == driver(0x8000_0000 + c).ctrl.id
  {
    var id := driver(FLAG_NEXT + c).ctrl.id;
    if id in Listed(driver, p) {
      SpanMembers(driver, CID_BASE, 43);
      SpanMembers(driver, CID_PRIVATE_BASE, p);
      AllPlainListed(driver, p, e, id);
      assert driver(id).ctrl in All(driver, p, e) && driver(id).ctrl.id == id;
    } else {
      WalkVisits(driver, Listed(driver, p), FLAG_NEXT, 0, e, k, c);
      assert driver(FLAG_NEXT + c).ctrl in All(driver, p, e);
    }
  }

  // ----- Menus the driver does not describe -----

  /** Integer division in C. */
  function TDiv(a: int, b: int): int
    requires b > 0
  {
    if a >= 0 then a / b else -(-a / b)
  }

  function Abs(a: int): nat { if a >= 0 then a else -a }

  function Item(c: Ctrl, k: nat): int { c.minimum + k * c.step }

  function MenuSize(c: Ctrl): nat
    requires c.step > 0
  {
    Abs(TDiv(c.maximum - c.minimum, c.step)) + 1
  }

  /** The made-up menu: as many entries as the loop fills, each step of the range once and in order. */
  method FakeMenu(c: Ctrl) returns (menu: array<int>, filled: nat)
    requires c.step > 0
    ensures menu.Length == MenuSize(c)
    ensures filled == if c.minimum <= c.maximum then MenuSize(c) else 0
    ensures forall k :: 0 <= k < filled ==> menu[k] == Item(c, k) <= c.maximum
    ensures Item(c, filled) > c.maximum
  {
    hide MenuSize, Item;
    menu := new int[MenuSize(c)];
    filled := 0;
    var i := c.minimum;
    ItemStep(c, 0);
    while i <= c.maximum
      invariant i == Item(c, filled) && filled <= if c.minimum <= c.maximum then MenuSize(c) else 0
      invariant c.minimum <= c.maximum ==> (Item(c, filled) <= c.maximum <==> filled < MenuSize(c))
      invariant forall k :: 0 <= k < filled ==> menu[k] == Item(c, k) <= c.maximum
      decreases c.maximum - i
    {
      menu[filled] := i;
      ItemStep(c, filled);
      ItemStep(c, filled + 1);
      filled := filled + 1;
      i := i + c.step;
    }
  }

  lemma ItemStep(c: Ctrl, k: nat)
    requires c.step > 0
    ensures Item(c, 0) == c.minimum && Item(c, k + 1) == Item(c, k) + c.step
    ensures c.minimum <= c.maximum ==> (Item(c, k) <= c.maximum <==> k < MenuSize(c))
  {
    if c.minimum <= c.maximum {
      LastStep(c.maximum - c.minimum, c.step, k);
    }
  }

  lemma LastStep(range: nat, step: nat, k: nat)
    requires step > 0
    ensures k * step <= range <==> k <= range / step
  {
    var q := range / step;
    if k <= q {
      Bits.MulMonotone(step, k, q);
    } else {
      Bits.MulMonotone(step, q + 1, k);
    }
  }
}
