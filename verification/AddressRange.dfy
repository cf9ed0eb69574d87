/** `cmse_check_address_range` of arm_cmse.h: may a whole range of addresses be accessed?

    The intrinsic queries the attribution of the first and of the last byte only, and skips the
    second query when both lie in one 32-byte granule.  The environment is an explicit attribution
    table for each of the four query instructions: contiguous regions that cover the 32-bit address
    space, start at multiples of 32 and have one query result each. */
module AddressRange {
  import opened Words

  // ----- flags

  const MPU_READWRITE: bv32 := 1
  const AU_NONSECURE: bv32 := 2
  const MPU_UNPRIV: bv32 := 4
  const MPU_READ: bv32 := 8
  const MPU_NONSECURE: bv32 := 16

  /** The result of a TT instruction, field by field (`cmse_address_info_t`).  The named fields fill
      the 32-bit word, so two words are equal exactly when all fields are. */
  datatype Info = Info(mpuRegion: bv8, sauRegion: bv8, mpuRegionValid: bool, sauRegionValid: bool,
                       readOk: bool, readWriteOk: bool, nonsecureReadOk: bool, nonsecureReadWriteOk: bool,
                       secure: bool, idauRegionValid: bool, idauRegion: bv8)

  // ----- the environment

  const ADDRESS_SPACE: nat := 0x1_0000_0000

  /** A 32-bit address or size. */
  predicate IsAddress(a: int) { 0 <= a < ADDRESS_SPACE }

  datatype Region = Region(base: nat, limit: nat, info: Info)

  type Table = seq<Region>

  /** Contiguous regions of whole 32-byte granules that cover all 32-bit addresses. */
  ghost predicate ValidTable(t: Table) {
    && t != []
    && t[0].base == 0
    && t[|t| - 1].limit == ADDRESS_SPACE - 1
    && (forall i :: 0 <= i < |t| ==> t[i].base <= t[i].limit && t[i].base % 32 == 0)
    && (forall i {:trigger Follows(t, i)} :: 0 < i < |t| ==> Follows(t, i))
  }

  /** Region `i` starts where the previous one ends. */
  ghost predicate Follows(t: Table, i: int)
    requires 0 < i < |t|
  {
    t[i].base == t[i - 1].limit + 1
  }

  /** One table for each query instruction. */
  datatype Attribution = Attribution(tt: Table, ttt: Table, tta: Table, ttat: Table) {
    ghost predicate Valid() {
      ValidTable(tt) && ValidTable(ttt) && ValidTable(tta) && ValidTable(ttat)
    }
  }

  ghost predicate Within(t: Table, i: int, a: int) {
    0 <= i < |t| && t[i].base <= a <= t[i].limit
  }

  /** Every address lies in a region. */
  lemma {:induction false} Covered(t: Table, a: nat, i: nat) returns (r: nat)
    requires ValidTable(t) && IsAddress(a) && i < |t| && t[i].base <= a
    ensures Within(t, r, a)
    decreases |t| - i
  {
    if a <= t[i].limit {
      r := i;
    } else {
      assert i + 1 < |t| ==> Follows(t, i + 1);
      r := Covered(t, a, i + 1);
    }
  }

  lemma AddressInRegion(t: Table, a: nat)
    requires ValidTable(t) && IsAddress(a)
    ensures exists i: nat :: Within(t, i, a)
  {
    var i := Covered(t, a, 0);
  }

  /** The region of an address. */
  ghost function Locate(t: Table, a: nat): (r: nat)
    requires ValidTable(t) && IsAddress(a)
    ensures Within(t, r, a)
  {
    AddressInRegion(t, a);
    var i: nat :| Within(t, i, a);
    i
  }

  /** The result of the query instruction for address `a`. */
  ghost function Query(t: Table, a: nat): Info
    requires ValidTable(t) && IsAddress(a)
  {
    t[Locate(t, a)].info
  }

  // ----- the check

  datatype Option<T> = None | Some(value: T)

  /** The first switch: which instruction the flags select.  `secureMode` is `__ARM_CMSE_SECURE_MODE`. */
  function Selected(secureMode: bool, env: Attribution, flags: bv32): (r: Option<Table>)
    ensures env.Valid() && r.Some? ==> ValidTable(r.value)
  {
    var v := flags & (MPU_UNPRIV | MPU_NONSECURE);
    if v == 0 then Some(env.tt)
    else if v == MPU_UNPRIV then Some(env.ttt)
    else if secureMode && v == MPU_NONSECURE then Some(env.tta)
    else if secureMode && v == MPU_UNPRIV | MPU_NONSECURE then Some(env.ttat)
    else None
  }

  /** The second switch: does the query result grant the flags? */
  predicate Granted(secureMode: bool, flags: bv32, perm: Info) {
    var f := flags & !(MPU_UNPRIV | MPU_NONSECURE);
    if secureMode && (f == MPU_READ | MPU_READWRITE | AU_NONSECURE || f == MPU_READWRITE | AU_NONSECURE)
      then perm.nonsecureReadWriteOk
    else if secureMode && f == MPU_READ | AU_NONSECURE then perm.nonsecureReadOk
    else if secureMode && f == AU_NONSECURE then !perm.secure
    else if f == MPU_READ | MPU_READWRITE || f == MPU_READWRITE then perm.readWriteOk
    else if f == MPU_READ then perm.readOk
    else false
  }

  /** Address of the last byte, computed in 32 bits. */
  function Last(p: nat, s: nat): (e: nat)
    ensures IsAddress(e)
  {
    (p + s - 1) % ADDRESS_SPACE
  }

  /** The intrinsic: the pointer itself, or 0 for `NULL`. */
  ghost function Check(secureMode: bool, env: Attribution, p: nat, s: nat, flags: bv32): (r: nat)
    requires env.Valid() && IsAddress(p) && IsAddress(s)
    ensures r == p || r == 0
  {
    var end := Last(p, s);
    if end < p then 0 else
      var singleCheck := Xor(32, p, end) < 0x20;
      match Selected(secureMode, env, flags)
      case None => 0
      case Some(t) => if Passes(secureMode, t, p, end, singleCheck, flags) then p else 0
  }

  /** The part of the intrinsic after the first switch has chosen the query instruction. */
  ghost predicate Passes(secureMode: bool, t: Table, p: nat, end: nat, singleCheck: bool, flags: bv32)
    requires ValidTable(t) && IsAddress(p) && IsAddress(end)
  {
    var permb := Query(t, p);
    var perme := if singleCheck then permb else Query(t, end);
    if permb != perme then false
    else if !secureMode && flags & AU_NONSECURE != 0 then false
    else Granted(secureMode, flags, permb)
  }

  // ----- the wrap-around test and the granule shortcut

  /** For a non-empty range the wrap-around test fires exactly when the range leaves the address space. */
  lemma WrapTest(p: nat, s: nat)
    requires IsAddress(p) && IsAddress(s) && s >= 1
    ensures Last(p, s) < p <==> p + s > ADDRESS_SPACE
    ensures p + s <= ADDRESS_SPACE ==> Last(p, s) == p + s - 1
  {
  }

  /** The empty range always gives `NULL`, at address 0 included, where the wrap-around test does not fire. */
  lemma EmptyRange(secureMode: bool, env: Attribution, p: nat, flags: bv32)
    requires env.Valid() && IsAddress(p)
    ensures Check(secureMode, env, p, 0, flags) == 0
    ensures Last(p, 0) < p <==> p != 0
  {
  }

  /** The shortcut test is exactly "same 32-byte granule". */
  lemma GranuleTest(a: nat, b: nat)
    requires IsAddress(a) && IsAddress(b)
    ensures Xor(32, a, b) < 0x20 <==> a / 32 == b / 32
  {
    Pow2Of32();
    assert Pow2(5) == 32;
    XorBelow(32, 5, a, b);
  }

  lemma LocateUnique(t: Table, a: nat, i: nat)
    requires ValidTable(t) && IsAddress(a) && Within(t, i, a)
    ensures Locate(t, a) == i
  {
    Disjoint(t, Locate(t, a), i, a);
  }

  lemma Disjoint(t: Table, i: nat, j: nat, a: nat)
    requires ValidTable(t) && Within(t, i, a) && Within(t, j, a)
    ensures i == j
  {
    if i < j {
      RegionsInOrder(t, i, j);
    } else if j < i {
      RegionsInOrder(t, j, i);
    }
  }

  lemma {:induction false} RegionsInOrder(t: Table, i: nat, j: nat)
    requires ValidTable(t) && i < j < |t|
    ensures t[i].limit < t[j].base
    decreases j
  {
    assert Follows(t, j);
    if i < j - 1 {
      RegionsInOrder(t, i, j - 1);
    }
  }

  /** A region ends where a granule ends. */
  lemma RegionEnd(t: Table, i: nat)
    requires ValidTable(t) && i < |t|
    ensures t[i].limit % 32 == 31
  {
    if i < |t| - 1 {
      assert Follows(t, i + 1);
    }
  }

  /** Addresses of one granule lie in one region, so skipping the second query changes nothing. */
  lemma SameGranule(t: Table, a: nat, b: nat)
    requires ValidTable(t) && IsAddress(a) && IsAddress(b) && a / 32 == b / 32
    ensures Locate(t, a) == Locate(t, b)
  {
    var i := Locate(t, a);
    RegionEnd(t, i);
    GranuleBounds(t[i].base, t[i].limit, a, b);
    LocateUnique(t, b, i);
  }

  lemma GranuleBounds(base: nat, limit: nat, a: nat, b: nat)
    requires base <= a <= limit && base % 32 == 0 && limit % 32 == 31 && a / 32 == b / 32
    ensures base <= b <= limit
  {
  }

  /** What remains of the check once wrap-around and the shortcut are understood. */
  lemma CheckWithoutShortcut(secureMode: bool, env: Attribution, p: nat, s: nat, flags: bv32)
    requires env.Valid() && IsAddress(p) && IsAddress(s) && s >= 1
    ensures Check(secureMode, env, p, s, flags) ==
            if p + s > ADDRESS_SPACE then 0 else
            match Selected(secureMode, env, flags)
            case None => 0
            case Some(t) =>
              if Query(t, p) == Query(t, p + s - 1) && Grants(secureMode, flags, Query(t, p)) then p else 0
  {
    WrapTest(p, s);
    var end, sel := p + s - 1, Selected(secureMode, env, flags);
    if end < ADDRESS_SPACE && sel.Some? {
      PassesWithoutShortcut(secureMode, sel.value, p, end, flags);
    }
  }

  lemma PassesWithoutShortcut(secureMode: bool, t: Table, p: nat, end: nat, flags: bv32)
    requires ValidTable(t) && IsAddress(p) && IsAddress(end)
    ensures Passes(secureMode, t, p, end, Xor(32, p, end) < 0x20, flags) <==>
            Query(t, p) == Query(t, end) && Grants(secureMode, flags, Query(t, p))
  {
    GranuleTest(p, end);
    if p / 32 == end / 32 {
      SameGranule(t, p, end);
    }
  }

  /** Both tests on the query result: the early return outside secure mode and the second switch. */
  predicate Grants(secureMode: bool, flags: bv32, perm: Info) {
    (secureMode || flags & AU_NONSECURE == 0) && Granted(secureMode, flags, perm)
  }

  // ----- the check against a byte-by-byte check

  /** Every byte of the range passes the check on its own, and all of them lie in one region. */
  ghost predicate EveryByte(secureMode: bool, env: Attribution, p: nat, s: nat, flags: bv32)
    requires env.Valid() && IsAddress(p) && IsAddress(s)
  {
    && p + s <= ADDRESS_SPACE
    && Selected(secureMode, env, flags).Some?
    && var t := Selected(secureMode, env, flags).value;
       forall a: nat :: p <= a < p + s ==>
         Check(secureMode, env, a, 1, flags) == a && Locate(t, a) == Locate(t, p)
  }

  /** No two regions share a query result that grants the flags. */
  ghost predicate Distinguishes(t: Table, secureMode: bool, flags: bv32) {
    forall i, j :: 0 <= i < j < |t| && Grants(secureMode, flags, t[i].info) ==> t[i].info != t[j].info
  }

  /** The check of a single byte is the test on its query result. */
  lemma CheckByte(secureMode: bool, env: Attribution, a: nat, flags: bv32)
    requires env.Valid() && IsAddress(a) && a != 0
    ensures Check(secureMode, env, a, 1, flags) == a <==>
            match Selected(secureMode, env, flags)
            case None => false
            case Some(t) => Grants(secureMode, flags, Query(t, a))
  {
    CheckWithoutShortcut(secureMode, env, a, 1, flags);
  }

  /** Regions are intervals: an address between two of one region is in that region. */
  lemma Between(t: Table, a: nat, b: nat, c: nat)
    requires ValidTable(t) && a <= b <= c && IsAddress(a) && IsAddress(b) && IsAddress(c)
    requires Locate(t, a) == Locate(t, c)
    ensures Locate(t, b) == Locate(t, a)
  {
    LocateUnique(t, b, Locate(t, a));
  }

  /** A range that passes byte by byte within one region always passes the two-endpoint check. */
  lemma Complete(secureMode: bool, env: Attribution, p: nat, s: nat, flags: bv32)
    requires env.Valid() && IsAddress(p) && IsAddress(s) && s >= 1 && p != 0
    requires EveryByte(secureMode, env, p, s, flags)
    ensures Check(secureMode, env, p, s, flags) == p
  {
    var t := Selected(secureMode, env, flags).value;
    assert Check(secureMode, env, p, 1, flags) == p;
    CheckByte(secureMode, env, p, flags);
    var end := p + s - 1;
    assert Locate(t, end) == Locate(t, p) by { assert Check(secureMode, env, end, 1, flags) == end; }
    CheckWithoutShortcut(secureMode, env, p, s, flags);
  }

  /** When query results tell regions apart, passing the check means that every byte passes. */
  lemma Sound(secureMode: bool, env: Attribution, p: nat, s: nat, flags: bv32)
    requires env.Valid() && IsAddress(p) && IsAddress(s) && s >= 1 && p != 0
    requires Selected(secureMode, env, flags).Some? ==>
               Distinguishes(Selected(secureMode, env, flags).value, secureMode, flags)
    requires Check(secureMode, env, p, s, flags) == p
    ensures EveryByte(secureMode, env, p, s, flags)
  {
    CheckWithoutShortcut(secureMode, env, p, s, flags);
    var t := Selected(secureMode, env, flags).value;
    var i, j := Locate(t, p), Locate(t, p + s - 1);
    assert i == j;
    forall a: nat | p <= a < p + s
      ensures Check(secureMode, env, a, 1, flags) == a && Locate(t, a) == Locate(t, p)
    {
      Between(t, p, a, p + s - 1);
      CheckByte(secureMode, env, a, flags);
    }
  }

  /** Two regions that share a granting result make a range pass that spans both of them. */
  lemma SpanningRange(secureMode: bool, env: Attribution, t: Table, flags: bv32, i: nat, j: nat) returns (p: nat, s: nat)
    requires env.Valid() && Selected(secureMode, env, flags) == Some(t)
    requires i < j < |t| && Grants(secureMode, flags, t[i].info) && t[i].info == t[j].info
    ensures IsAddress(p) && IsAddress(s) && s >= 1 && p != 0
    ensures Check(secureMode, env, p, s, flags) == p
    ensures !EveryByte(secureMode, env, p, s, flags)
  {
    RegionsInOrder(t, i, j);
    p, s := t[i].limit, t[j].base - t[i].limit + 1;
    RegionEnd(t, i);
    LastLimit(t, j);
    LocateUnique(t, p, i);
    LocateUnique(t, t[j].base, j);
    assert p + s - 1 == t[j].base;
    CheckWithoutShortcut(secureMode, env, p, s, flags);
  }

  lemma LastLimit(t: Table, j: nat)
    requires ValidTable(t) && j < |t|
    ensures t[j].limit < ADDRESS_SPACE
  {
    if j < |t| - 1 {
      RegionsInOrder(t, j, |t| - 1);
    }
  }

  /** The two-endpoint check agrees with the byte-by-byte check on every non-empty range with a
      non-null start exactly when no two regions share a query result that grants the flags. */
  lemma CheckIsExact(secureMode: bool, env: Attribution, flags: bv32)
    requires env.Valid() && Selected(secureMode, env, flags).Some?
    ensures (forall p: nat, s: nat :: IsAddress(p) && IsAddress(s) && p != 0 && s >= 1 ==>
               (Check(secureMode, env, p, s, flags) == p <==> EveryByte(secureMode, env, p, s, flags)))
            <==> Distinguishes(Selected(secureMode, env, flags).value, secureMode, flags)
  {
    var t := Selected(secureMode, env, flags).value;
    if Distinguishes(t, secureMode, flags) {
      forall p: nat, s: nat | IsAddress(p) && IsAddress(s) && p != 0 && s >= 1
        ensures Check(secureMode, env, p, s, flags) == p <==> EveryByte(secureMode, env, p, s, flags)
      {
        if Check(secureMode, env, p, s, flags) == p {
          Sound(secureMode, env, p, s, flags);
        }
        if EveryByte(secureMode, env, p, s, flags) {
          Complete(secureMode, env, p, s, flags);
        }
      }
    } else {
      var i: nat, j: nat :| i < j < |t| && Grants(secureMode, flags, t[i].info) && t[i].info == t[j].info;
      var p, s := SpanningRange(secureMode, env, t, flags, i, j);
    }
  }
}
