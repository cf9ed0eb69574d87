/** Laws of `cmse_check_address_range`: what a request means, which requests imply which, and how
    the answer for a range relates to the answers for its parts. */
module AddressRangeLaws {
  import opened AddressRange

  // ----- what the flags ask for

  predicate WantsReadWrite(flags: bv32) { flags & MPU_READWRITE != 0 }
  predicate WantsRead(flags: bv32) { flags & MPU_READ != 0 }
  predicate WantsNonsecure(flags: bv32) { flags & AU_NONSECURE != 0 }

  /** Only known flags, at least one request, and no non-secure flag outside secure mode. */
  predicate Supported(secureMode: bool, flags: bv32) {
    && flags & !0x1F == 0
    && flags & (MPU_READWRITE | AU_NONSECURE | MPU_READ) != 0
    && (secureMode || flags & (AU_NONSECURE | MPU_NONSECURE) == 0)
  }

  /** Every single request holds of the query result. */
  predicate Permits(flags: bv32, i: Info) {
    && (WantsReadWrite(flags) ==> i.readWriteOk)
    && (WantsRead(flags) ==> i.readOk)
    && (WantsNonsecure(flags) ==> !i.secure)
  }

  /** How the fields of a query result depend on each other: writable memory is readable and, in
      secure mode, the non-secure fields are the plain ones for memory that is not secure. */
  predicate WellFormed(secureMode: bool, i: Info) {
    && (i.readWriteOk ==> i.readOk)
    && (secureMode ==> i.nonsecureReadOk == (i.readOk && !i.secure))
    && (secureMode ==> i.nonsecureReadWriteOk == (i.readWriteOk && !i.secure))
  }

  ghost predicate WellFormedTable(secureMode: bool, t: Table) {
    forall i :: 0 <= i < |t| ==> WellFormed(secureMode, t[i].info)
  }

  ghost predicate WellFormedEnv(secureMode: bool, env: Attribution) {
    && WellFormedTable(secureMode, env.tt) && WellFormedTable(secureMode, env.ttt)
    && WellFormedTable(secureMode, env.tta) && WellFormedTable(secureMode, env.ttat)
  }

  /** The second switch, which looks at one field only, grants exactly the conjunction of all requests. */
  lemma GrantsIsPermits(secureMode: bool, flags: bv32, i: Info)
    requires Supported(secureMode, flags) && WellFormed(secureMode, i)
    ensures Grants(secureMode, flags, i) <==> Permits(flags, i)
  {
    RequestCases(flags);
  }

  /** The value the second switch compares, for each combination of requests. */
  lemma RequestCases(flags: bv32)
    requires flags & !0x1F == 0
    ensures var f := flags & !(MPU_UNPRIV | MPU_NONSECURE);
            && (WantsReadWrite(flags) && WantsNonsecure(flags) && WantsRead(flags) ==> f == 11)
            && (WantsReadWrite(flags) && WantsNonsecure(flags) && !WantsRead(flags) ==> f == 3)
            && (WantsReadWrite(flags) && !WantsNonsecure(flags) && WantsRead(flags) ==> f == 9)
            && (WantsReadWrite(flags) && !WantsNonsecure(flags) && !WantsRead(flags) ==> f == 1)
            && (!WantsReadWrite(flags) && WantsNonsecure(flags) && WantsRead(flags) ==> f == 10)
            && (!WantsReadWrite(flags) && WantsNonsecure(flags) && !WantsRead(flags) ==> f == 2)
            && (!WantsReadWrite(flags) && !WantsNonsecure(flags) && WantsRead(flags) ==> f == 8)
  {
  }

  // ----- what the flag bits select, as literal values

  /** What the first switch selects, by the value it compares. */
  lemma SelectedForValue(secureMode: bool, env: Attribution, flags: bv32, v: bv32)
    requires v == flags & (MPU_UNPRIV | MPU_NONSECURE)
    ensures v == 0 ==> Selected(secureMode, env, flags) == Some(env.tt)
    ensures v == 4 ==> Selected(secureMode, env, flags) == Some(env.ttt)
    ensures v == 16 ==> Selected(secureMode, env, flags) == if secureMode then Some(env.tta) else None
    ensures v == 20 ==> Selected(secureMode, env, flags) == if secureMode then Some(env.ttat) else None
  {
  }

  lemma SelectedByValue(secureMode: bool, env: Attribution, flags: bv32)
    ensures flags & 20 == 0 ==> Selected(secureMode, env, flags) == Some(env.tt)
    ensures flags & 20 == 4 ==> Selected(secureMode, env, flags) == Some(env.ttt)
    ensures flags & 20 == 16 ==> Selected(secureMode, env, flags) == if secureMode then Some(env.tta) else None
    ensures flags & 20 == 20 ==> Selected(secureMode, env, flags) == if secureMode then Some(env.ttat) else None
    ensures flags & 20 == 0 || flags & 20 == 4 || flags & 20 == 16 || flags & 20 == 20
  {
    var v := flags & (MPU_UNPRIV | MPU_NONSECURE);
    SelectedForValue(secureMode, env, flags, v);
    FlagCases(flags, v);
  }

  /** The four values of the two flags. */
  lemma FlagCases(flags: bv32, v: bv32)
    requires v == flags & 20
    ensures v == 0 || v == 4 || v == 16 || v == 20
  {
  }

  /** First and last byte have the same query result, with the permissions that flags 1, 2 and 8 ask for:
      with flag 2 the non-secure field of the strongest access asked for, else the plain one. */
  ghost predicate PassesWith(secureMode: bool, t: Table, a: nat, b: nat, flags: bv32)
    requires ValidTable(t) && IsAddress(a) && IsAddress(b)
  {
    && Query(t, a) == Query(t, b)
    && FieldGrants(secureMode, flags, Query(t, a))
  }

  predicate FieldGrants(secureMode: bool, flags: bv32, i: Info) {
    && flags & 0xFFFF_FFE0 == 0
    && if flags & 2 == 2 then
         secureMode && (if flags & 1 == 1 then i.nonsecureReadWriteOk else if flags & 8 == 8 then i.nonsecureReadOk else !i.secure)
       else
         (flags & 1 == 1 && i.readWriteOk) || (flags & 9 == 8 && i.readOk)
  }

  /** The flags left to the second switch, `f`, keep bits 1, 2 and 8, and any unknown ones. */
  lemma RemainingFlags(flags: bv32, f: bv32)
    requires f == flags & !20
    ensures flags & 1 == f & 1 && flags & 2 == f & 2 && flags & 8 == f & 8 && flags & 9 == f & 9
    ensures flags & 0xFFFF_FFE0 == f & 0xFFFF_FFE0 && f & 20 == 0
  {
  }

  lemma KnownFlags(f: bv32)
    requires f & 20 == 0
    ensures f & 0xFFFF_FFE0 == 0 <==>
            f == 0 || f == 1 || f == 2 || f == 3 || f == 8 || f == 9 || f == 10 || f == 11
  {
  }

  /** What the second switch reads, by the value it compares. */
  lemma GrantedByValue(secureMode: bool, flags: bv32, i: Info, f: bv32)
    requires f == flags & !(MPU_UNPRIV | MPU_NONSECURE)
    ensures secureMode && (f == 3 || f == 11) ==> (Granted(secureMode, flags, i) <==> i.nonsecureReadWriteOk)
    ensures secureMode && f == 10 ==> (Granted(secureMode, flags, i) <==> i.nonsecureReadOk)
    ensures secureMode && f == 2 ==> (Granted(secureMode, flags, i) <==> !i.secure)
    ensures f == 1 || f == 9 ==> (Granted(secureMode, flags, i) <==> i.readWriteOk)
    ensures f == 8 ==> (Granted(secureMode, flags, i) <==> i.readOk)
    ensures f != 1 && f != 2 && f != 3 && f != 8 && f != 9 && f != 10 && f != 11 ==> !Granted(secureMode, flags, i)
  {
  }

  lemma FieldByValue(secureMode: bool, flags: bv32, i: Info, f: bv32)
    requires flags & 1 == f & 1 && flags & 2 == f & 2 && flags & 8 == f & 8 && flags & 9 == f & 9
    requires flags & 0xFFFF_FFE0 == f & 0xFFFF_FFE0
    ensures f == 3 || f == 11 ==> (FieldGrants(secureMode, flags, i) <==> secureMode && i.nonsecureReadWriteOk)
    ensures f == 10 ==> (FieldGrants(secureMode, flags, i) <==> secureMode && i.nonsecureReadOk)
    ensures f == 2 ==> (FieldGrants(secureMode, flags, i) <==> secureMode && !i.secure)
    ensures f == 1 || f == 9 ==> (FieldGrants(secureMode, flags, i) <==> i.readWriteOk)
    ensures f == 8 ==> (FieldGrants(secureMode, flags, i) <==> i.readOk)
    ensures f == 0 || f & 0xFFFF_FFE0 != 0 ==> !FieldGrants(secureMode, flags, i)
  {
  }

  /** The early return and the second switch read exactly that field. */
  lemma GrantsIsField(secureMode: bool, flags: bv32, i: Info)
    ensures Grants(secureMode, flags, i) <==> FieldGrants(secureMode, flags, i)
  {
    var f := flags & !(MPU_UNPRIV | MPU_NONSECURE);
    RemainingFlags(flags, f);
    KnownFlags(f);
    GrantedByValue(secureMode, flags, i, f);
    FieldByValue(secureMode, flags, i, f);
    assert Grants(secureMode, flags, i) <==> (secureMode || f & 2 == 0) && Granted(secureMode, flags, i);
  }

  /** Flags 4 and 16 choose the query instruction, and both ends of the range are asked with that one. */
  lemma QueryChosen(secureMode: bool, env: Attribution, p: nat, s: nat, flags: bv32)
    requires env.Valid() && IsAddress(p) && IsAddress(s) && p != 0 && s >= 1 && p + s <= 0x1_0000_0000
    ensures flags & 20 == 0 ==>
              (Check(secureMode, env, p, s, flags) == p <==> PassesWith(secureMode, env.tt, p, p + s - 1, flags))
    ensures flags & 20 == 4 ==>
              (Check(secureMode, env, p, s, flags) == p <==> PassesWith(secureMode, env.ttt, p, p + s - 1, flags))
    ensures secureMode && flags & 20 == 16 ==>
              (Check(secureMode, env, p, s, flags) == p <==> PassesWith(secureMode, env.tta, p, p + s - 1, flags))
    ensures secureMode && flags & 20 == 20 ==>
              (Check(secureMode, env, p, s, flags) == p <==> PassesWith(secureMode, env.ttat, p, p + s - 1, flags))
    ensures !secureMode && (flags & 20 == 16 || flags & 20 == 20) ==> Check(secureMode, env, p, s, flags) == 0
  {
    CheckWithoutShortcut(secureMode, env, p, s, flags);
    var sel := Selected(secureMode, env, flags);
    SelectedByValue(secureMode, env, flags);
    if sel.Some? {
      GrantsIsField(secureMode, flags, Query(sel.value, p));
    }
  }

  /** The answer depends on the table of the chosen query instruction only. */
  lemma OtherTablesUnused(secureMode: bool, env: Attribution, other: Attribution, p: nat, s: nat, flags: bv32)
    requires env.Valid() && other.Valid() && IsAddress(p) && IsAddress(s)
    requires flags & 20 == 0 ==> env.tt == other.tt
    requires flags & 20 == 4 ==> env.ttt == other.ttt
    requires flags & 20 == 16 ==> env.tta == other.tta
    requires flags & 20 == 20 ==> env.ttat == other.ttat
    ensures Check(secureMode, env, p, s, flags) == Check(secureMode, other, p, s, flags)
  {
    SelectedByValue(secureMode, env, flags);
    SelectedByValue(secureMode, other, flags);
  }

  /** Unsupported flags are refused: by the first switch, by the early return or by the second switch. */
  lemma UnsupportedRefused(secureMode: bool, env: Attribution, p: nat, s: nat, flags: bv32)
    requires env.Valid() && IsAddress(p) && IsAddress(s)
    requires !Supported(secureMode, flags)
    ensures Check(secureMode, env, p, s, flags) == 0
  {
    if s == 0 {
      EmptyRange(secureMode, env, p, flags);
    } else {
      CheckWithoutShortcut(secureMode, env, p, s, flags);
      NothingGranted(secureMode, env, flags);
    }
  }

  lemma NothingGranted(secureMode: bool, env: Attribution, flags: bv32)
    requires !Supported(secureMode, flags)
    ensures Selected(secureMode, env, flags).None? || forall i: Info :: !Grants(secureMode, flags, i)
  {
    var f := flags & !(MPU_UNPRIV | MPU_NONSECURE);
    if flags & !0x1F != 0 {
      assert f & !0x1F != 0;
    }
  }

  lemma SupportedSelected(secureMode: bool, env: Attribution, flags: bv32)
    requires Supported(secureMode, flags)
    ensures Selected(secureMode, env, flags).Some?
  {
  }

  lemma QueryWellFormed(secureMode: bool, env: Attribution, t: Table, a: nat, flags: bv32)
    requires env.Valid() && WellFormedEnv(secureMode, env) && IsAddress(a)
    requires Selected(secureMode, env, flags) == Some(t)
    ensures WellFormed(secureMode, Query(t, a))
  {
  }

  /** The range does not wrap, lies in a single region, and every byte of it has every requested
      permission. */
  ghost predicate Accessible(t: Table, p: nat, s: nat, flags: bv32)
    requires ValidTable(t) && IsAddress(p) && IsAddress(s)
  {
    && p + s <= ADDRESS_SPACE
    && forall a: nat :: p <= a < p + s ==> Locate(t, a) == Locate(t, p) && Permits(flags, Query(t, a))
  }

  lemma AccessibleIsEveryByte(secureMode: bool, env: Attribution, t: Table, p: nat, s: nat, flags: bv32)
    requires env.Valid() && WellFormedEnv(secureMode, env) && IsAddress(p) && IsAddress(s) && p != 0
    requires Supported(secureMode, flags) && Selected(secureMode, env, flags) == Some(t)
    ensures Accessible(t, p, s, flags) <==> EveryByte(secureMode, env, p, s, flags)
  {
    if p + s <= ADDRESS_SPACE {
      forall a: nat | p <= a < p + s
        ensures Check(secureMode, env, a, 1, flags) == a <==> Permits(flags, Query(t, a))
      {
        CheckByte(secureMode, env, a, flags);
        QueryWellFormed(secureMode, env, t, a, flags);
        GrantsIsPermits(secureMode, flags, Query(t, a));
      }
    }
  }

  /** The full specification: for supported flags and query results that tell regions apart, a
      non-empty range with a non-null start passes exactly when it is accessible. */
  lemma CheckMeaning(secureMode: bool, env: Attribution, t: Table, p: nat, s: nat, flags: bv32)
    requires env.Valid() && WellFormedEnv(secureMode, env)
    requires IsAddress(p) && IsAddress(s) && p != 0 && s >= 1
    requires Supported(secureMode, flags) && Selected(secureMode, env, flags) == Some(t)
    ensures Accessible(t, p, s, flags) ==> Check(secureMode, env, p, s, flags) == p
    ensures Distinguishes(t, secureMode, flags) ==>
              (Check(secureMode, env, p, s, flags) == p <==> Accessible(t, p, s, flags))
  {
    AccessibleIsEveryByte(secureMode, env, t, p, s, flags);
    if Accessible(t, p, s, flags) {
      Complete(secureMode, env, p, s, flags);
    }
    CheckIsExact(secureMode, env, flags);
  }

  ghost predicate PassesAccessible(secureMode: bool, env: Attribution, t: Table, flags: bv32)
    requires env.Valid() && ValidTable(t)
  {
    forall p: nat, s: nat :: IsAddress(p) && IsAddress(s) && p != 0 && s >= 1 ==>
      (Check(secureMode, env, p, s, flags) == p <==> Accessible(t, p, s, flags))
  }

  /** The check passes exactly the accessible ranges if and only if no two regions share a query result
      that grants the flags. */
  lemma MeaningIsExact(secureMode: bool, env: Attribution, t: Table, flags: bv32)
    requires env.Valid() && WellFormedEnv(secureMode, env)
    requires Supported(secureMode, flags) && Selected(secureMode, env, flags) == Some(t)
    ensures PassesAccessible(secureMode, env, t, flags) <==> Distinguishes(t, secureMode, flags)
  {
    forall p: nat, s: nat | IsAddress(p) && IsAddress(s) && p != 0
      ensures Accessible(t, p, s, flags) <==> EveryByte(secureMode, env, p, s, flags)
    {
      AccessibleIsEveryByte(secureMode, env, t, p, s, flags);
    }
    CheckIsExact(secureMode, env, flags);
  }

  // ----- weaker requests

  /** A request that asks for nothing more passes wherever the stronger one does; read access is
      implied by read-write access. */
  lemma WeakerRequest(secureMode: bool, env: Attribution, p: nat, s: nat, strong: bv32, weak: bv32)
    requires env.Valid() && WellFormedEnv(secureMode, env) && IsAddress(p) && IsAddress(s)
    requires strong & (MPU_UNPRIV | MPU_NONSECURE) == weak & (MPU_UNPRIV | MPU_NONSECURE)
    requires Supported(secureMode, weak)
    requires WantsReadWrite(weak) ==> WantsReadWrite(strong)
    requires WantsRead(weak) ==> WantsRead(strong) || WantsReadWrite(strong)
    requires WantsNonsecure(weak) ==> WantsNonsecure(strong)
    requires p != 0 && Check(secureMode, env, p, s, strong) == p
    ensures Check(secureMode, env, p, s, weak) == p
  {
    if !Supported(secureMode, strong) {
      UnsupportedRefused(secureMode, env, p, s, strong);
    }
    if s == 0 {
      EmptyRange(secureMode, env, p, strong);
    } else {
      CheckWithoutShortcut(secureMode, env, p, s, strong);
      CheckWithoutShortcut(secureMode, env, p, s, weak);
      SupportedSelected(secureMode, env, strong);
      var t := Selected(secureMode, env, strong).value;
      QueryWellFormed(secureMode, env, t, p, strong);
      GrantsIsPermits(secureMode, strong, Query(t, p));
      GrantsIsPermits(secureMode, weak, Query(t, p));
    }
  }

  /** Passing with a read-write request implies passing with the matching read request. */
  lemma ReadWriteImpliesRead(secureMode: bool, env: Attribution, p: nat, s: nat, flags: bv32)
    requires env.Valid() && WellFormedEnv(secureMode, env) && IsAddress(p) && IsAddress(s)
    requires WantsReadWrite(flags) && p != 0 && Check(secureMode, env, p, s, flags) == p
    ensures Check(secureMode, env, p, s, (flags & !MPU_READWRITE) | MPU_READ) == p
  {
    if !Supported(secureMode, flags) {
      UnsupportedRefused(secureMode, env, p, s, flags);
    }
    WeakerRequest(secureMode, env, p, s, flags, (flags & !MPU_READWRITE) | MPU_READ);
  }

  /** In secure mode, passing with read (or read-write) and non-secure implies passing with
      non-secure alone. */
  lemma NonsecureAlone(env: Attribution, p: nat, s: nat, flags: bv32)
    requires env.Valid() && WellFormedEnv(true, env) && IsAddress(p) && IsAddress(s)
    requires WantsNonsecure(flags) && p != 0 && Check(true, env, p, s, flags) == p
    ensures Check(true, env, p, s, flags & !(MPU_READ | MPU_READWRITE)) == p
  {
    if !Supported(true, flags) {
      UnsupportedRefused(true, env, p, s, flags);
    }
    WeakerRequest(true, env, p, s, flags, flags & !(MPU_READ | MPU_READWRITE));
  }

  // ----- parts of a range

  /** First and last byte have the same query result, and it grants the flags. */
  ghost predicate Ends(secureMode: bool, t: Table, a: nat, b: nat, flags: bv32)
    requires ValidTable(t) && IsAddress(a) && IsAddress(b)
  {
    Query(t, a) == Query(t, b) && Grants(secureMode, flags, Query(t, a))
  }

  lemma CheckIsEnds(secureMode: bool, env: Attribution, t: Table, p: nat, s: nat, end: nat, flags: bv32)
    requires env.Valid() && IsAddress(p) && IsAddress(s) && s >= 1 && p != 0 && IsAddress(end) && p + s == end + 1
    requires Selected(secureMode, env, flags) == Some(t)
    ensures Check(secureMode, env, p, s, flags) == p <==> Ends(secureMode, t, p, end, flags)
  {
    WrapTest(p, s);
    PassesWithoutShortcut(secureMode, t, p, end, flags);
  }

  /** Regions `i` and `j` share a query result that grants the flags. */
  ghost predicate Shared(t: Table, secureMode: bool, flags: bv32, i: nat, j: nat) {
    i < j < |t| && Grants(secureMode, flags, t[i].info) && t[i].info == t[j].info
  }

  /** No region with another query result lies between two regions that share a granting one. */
  ghost predicate Uninterrupted(t: Table, secureMode: bool, flags: bv32) {
    forall i: nat, k: nat, j: nat :: Shared(t, secureMode, flags, i, j) && i < k < j ==> t[k].info == t[i].info
  }

  lemma LocateMonotone(t: Table, a: nat, b: nat)
    requires ValidTable(t) && a <= b && IsAddress(b)
    ensures Locate(t, a) <= Locate(t, b)
  {
    if Locate(t, b) < Locate(t, a) {
      RegionsInOrder(t, Locate(t, b), Locate(t, a));
    }
  }

  /** Between two addresses with the same granting result every address has that result. */
  lemma SameThroughout(t: Table, secureMode: bool, flags: bv32, a: nat, b: nat, c: nat)
    requires ValidTable(t) && Uninterrupted(t, secureMode, flags) && a <= b <= c && IsAddress(c)
    requires Ends(secureMode, t, a, c, flags)
    ensures Query(t, b) == Query(t, a)
  {
    LocateMonotone(t, a, b);
    LocateMonotone(t, b, c);
    var i, j := Locate(t, a), Locate(t, c);
    assert i < j ==> Shared(t, secureMode, flags, i, j);
  }

  /** `[q, q + r)` is a non-empty part of the non-empty range `[p, p + s)` that does not start at 0. */
  predicate PartOf(p: nat, s: nat, q: nat, r: nat) {
    IsAddress(p) && IsAddress(s) && p != 0 && s >= 1 && r >= 1 && p <= q && q + r <= p + s
  }

  /** A range that passes does not wrap, and its ends agree. */
  lemma PassingEnds(secureMode: bool, env: Attribution, t: Table, p: nat, s: nat, end: int, flags: bv32)
    requires env.Valid() && IsAddress(p) && IsAddress(s) && s >= 1 && p != 0 && p + s == end + 1
    requires Selected(secureMode, env, flags) == Some(t) && Check(secureMode, env, p, s, flags) == p
    ensures IsAddress(end) && Ends(secureMode, t, p, end, flags)
  {
    WrapTest(p, s);
    CheckIsEnds(secureMode, env, t, p, s, end, flags);
  }

  lemma PartWithSameEnds(secureMode: bool, env: Attribution, t: Table, p: nat, s: nat, q: nat, r: nat, last: nat, flags: bv32)
    requires env.Valid() && Selected(secureMode, env, flags) == Some(t)
    requires PartOf(p, s, q, r) && last == q + r - 1 && Check(secureMode, env, p, s, flags) == p
    ensures IsAddress(q) && IsAddress(r) && IsAddress(last)
    ensures Query(t, q) == Query(t, p) == Query(t, last) ==> Check(secureMode, env, q, r, flags) == q
  {
    PassingEnds(secureMode, env, t, p, s, p + s - 1, flags);
    CheckIsEnds(secureMode, env, t, q, r, last, flags);
  }

  lemma UninterruptedPart(secureMode: bool, env: Attribution, t: Table, p: nat, s: nat, q: nat, r: nat, last: nat, flags: bv32)
    requires env.Valid() && Selected(secureMode, env, flags) == Some(t) && Uninterrupted(t, secureMode, flags)
    requires PartOf(p, s, q, r) && last == q + r - 1 && Check(secureMode, env, p, s, flags) == p
    ensures IsAddress(last) && Query(t, q) == Query(t, p) == Query(t, last)
  {
    var end := p + s - 1;
    PassingEnds(secureMode, env, t, p, s, end, flags);
    SameThroughout(t, secureMode, flags, p, q, end);
    SameThroughout(t, secureMode, flags, p, last, end);
  }

  /** A part of a range that passes, passes when its own ends have the query result of the range, and so
      always when no region interrupts. */
  lemma Subrange(secureMode: bool, env: Attribution, t: Table, p: nat, s: nat, q: nat, r: nat, last: nat, flags: bv32)
    requires env.Valid() && Selected(secureMode, env, flags) == Some(t)
    requires PartOf(p, s, q, r) && last == q + r - 1 && Check(secureMode, env, p, s, flags) == p
    ensures IsAddress(q) && IsAddress(r) && IsAddress(last)
    ensures Query(t, q) == Query(t, p) == Query(t, last) ==> Check(secureMode, env, q, r, flags) == q
    ensures Uninterrupted(t, secureMode, flags) ==> Check(secureMode, env, q, r, flags) == q
  {
    PartWithSameEnds(secureMode, env, t, p, s, q, r, last, flags);
    if Uninterrupted(t, secureMode, flags) {
      UninterruptedPart(secureMode, env, t, p, s, q, r, last, flags);
    }
  }

  /** A range that passes has a part that does not, when a region interrupts. */
  lemma InterruptedRange(secureMode: bool, env: Attribution, t: Table, flags: bv32, i: nat, k: nat, j: nat)
      returns (p: nat, s: nat, r: nat)
    requires env.Valid() && Selected(secureMode, env, flags) == Some(t)
    requires Shared(t, secureMode, flags, i, j) && i < k < j && t[k].info != t[i].info
    ensures p == t[i].limit && p + r == t[k].base + 1 && p + s == t[j].base + 1
    ensures PartOf(p, s, p, r) && IsAddress(r) && r > 1 && p + s <= ADDRESS_SPACE
    ensures Check(secureMode, env, p, s, flags) == p && Check(secureMode, env, p, r, flags) == 0
  {
    RegionsInOrder(t, i, k);
    RegionsInOrder(t, k, j);
    RegionEnd(t, i);
    LastLimit(t, j);
    p, r, s := t[i].limit, t[k].base - t[i].limit + 1, t[j].base - t[i].limit + 1;
    LocateUnique(t, p, i);
    LocateUnique(t, t[k].base, k);
    LocateUnique(t, t[j].base, j);
    CheckIsEnds(secureMode, env, t, p, s, t[j].base, flags);
    CheckIsEnds(secureMode, env, t, p, r, t[k].base, flags);
  }

  ghost predicate PassesToParts(secureMode: bool, env: Attribution, flags: bv32)
    requires env.Valid()
  {
    forall p: nat, s: nat, q: nat, r: nat :: PartOf(p, s, q, r) && Check(secureMode, env, p, s, flags) == p ==>
      IsAddress(q) && IsAddress(r) && Check(secureMode, env, q, r, flags) == q
  }

  /** Passing carries over to all parts exactly when no region interrupts. */
  lemma SubrangeIsExact(secureMode: bool, env: Attribution, t: Table, flags: bv32)
    requires env.Valid() && Selected(secureMode, env, flags) == Some(t)
    ensures PassesToParts(secureMode, env, flags) <==> Uninterrupted(t, secureMode, flags)
  {
    if Uninterrupted(t, secureMode, flags) {
      forall p: nat, s: nat, q: nat, r: nat | PartOf(p, s, q, r) && Check(secureMode, env, p, s, flags) == p
        ensures IsAddress(q) && IsAddress(r) && Check(secureMode, env, q, r, flags) == q
      {
        Subrange(secureMode, env, t, p, s, q, r, q + r - 1, flags);
      }
    } else {
      var i: nat, k: nat, j: nat :| Shared(t, secureMode, flags, i, j) && i < k < j && t[k].info != t[i].info;
      var p, s, r := InterruptedRange(secureMode, env, t, flags, i, k, j);
    }
  }

  /** Every region between two that share a granting query result grants the flags too. */
  ghost predicate Enclosed(t: Table, secureMode: bool, flags: bv32) {
    forall i: nat, k: nat, j: nat :: Shared(t, secureMode, flags, i, j) && i < k < j ==>
      Grants(secureMode, flags, t[k].info)
  }

  /** Every byte of a range that passes has the requested permission. */
  lemma ByteOfRange(secureMode: bool, env: Attribution, t: Table, p: nat, s: nat, a: nat, flags: bv32)
    requires env.Valid() && Selected(secureMode, env, flags) == Some(t) && Enclosed(t, secureMode, flags)
    requires PartOf(p, s, a, 1) && Check(secureMode, env, p, s, flags) == p
    ensures IsAddress(a) && Check(secureMode, env, a, 1, flags) == a
  {
    var end := p + s - 1;
    PassingEnds(secureMode, env, t, p, s, end, flags);
    LocateMonotone(t, p, a);
    LocateMonotone(t, a, end);
    var i, j := Locate(t, p), Locate(t, end);
    assert Grants(secureMode, flags, Query(t, a)) by {
      assert i < j ==> Shared(t, secureMode, flags, i, j);
    }
    CheckByte(secureMode, env, a, flags);
  }

  /** Between two regions that share a granting result, one that does not grant: a range that passes over
      a byte without permission. */
  lemma UnpermittedByte(secureMode: bool, env: Attribution, t: Table, flags: bv32, i: nat, k: nat, j: nat)
      returns (p: nat, s: nat, a: nat)
    requires env.Valid() && Selected(secureMode, env, flags) == Some(t)
    requires Shared(t, secureMode, flags, i, j) && i < k < j && !Grants(secureMode, flags, t[k].info)
    ensures PartOf(p, s, a, 1) && IsAddress(a)
    ensures Check(secureMode, env, p, s, flags) == p && Check(secureMode, env, a, 1, flags) == 0
  {
    var r;
    p, s, r := InterruptedRange(secureMode, env, t, flags, i, k, j);
    a := t[k].base;
    LocateUnique(t, a, k);
    CheckByte(secureMode, env, a, flags);
  }

  ghost predicate PassesToBytes(secureMode: bool, env: Attribution, flags: bv32)
    requires env.Valid()
  {
    forall p: nat, s: nat, a: nat :: PartOf(p, s, a, 1) && Check(secureMode, env, p, s, flags) == p ==>
      IsAddress(a) && Check(secureMode, env, a, 1, flags) == a
  }

  /** Every byte of every range that passes has the requested permission if and only if no region without
      it lies between two that share a granting query result. */
  lemma BytesAreExact(secureMode: bool, env: Attribution, t: Table, flags: bv32)
    requires env.Valid() && Selected(secureMode, env, flags) == Some(t)
    ensures PassesToBytes(secureMode, env, flags) <==> Enclosed(t, secureMode, flags)
  {
    if Enclosed(t, secureMode, flags) {
      forall p: nat, s: nat, a: nat | PartOf(p, s, a, 1) && Check(secureMode, env, p, s, flags) == p
        ensures IsAddress(a) && Check(secureMode, env, a, 1, flags) == a
      {
        ByteOfRange(secureMode, env, t, p, s, a, flags);
      }
    } else {
      var i: nat, k: nat, j: nat :|
        Shared(t, secureMode, flags, i, j) && i < k < j && !Grants(secureMode, flags, t[k].info);
      var p, s, a := UnpermittedByte(secureMode, env, t, flags, i, k, j);
    }
  }

  lemma EndsSplit(secureMode: bool, t: Table, a: nat, b: nat, c: nat, d: nat, flags: bv32)
    requires ValidTable(t) && Uninterrupted(t, secureMode, flags) && IsAddress(d) && a <= b <= c <= d
    ensures Ends(secureMode, t, a, d, flags) <==>
            Ends(secureMode, t, a, b, flags) && Ends(secureMode, t, c, d, flags) && Query(t, a) == Query(t, c)
  {
    if Ends(secureMode, t, a, d, flags) {
      SameThroughout(t, secureMode, flags, a, b, d);
      SameThroughout(t, secureMode, flags, a, c, d);
    }
  }

  /** The range `[p, p + s)` cut at `q`: both parts pass and have the same query result. */
  ghost predicate PartsPass(secureMode: bool, env: Attribution, t: Table, p: nat, s1: nat, q: nat, s2: nat, flags: bv32)
    requires env.Valid() && ValidTable(t) && IsAddress(p) && IsAddress(s1) && IsAddress(q) && IsAddress(s2)
  {
    && Check(secureMode, env, p, s1, flags) == p
    && Check(secureMode, env, q, s2, flags) == q
    && Query(t, p) == Query(t, q)
  }

  /** `[p, p + s)` is cut into the non-empty parts `[p, q)` and `[q, q + s2)`. */
  predicate Cut(p: nat, s: nat, s1: nat, q: nat, s2: nat) {
    && IsAddress(p) && IsAddress(s) && p != 0 && p + s <= ADDRESS_SPACE
    && s1 >= 1 && s2 >= 1 && s == s1 + s2 && q == p + s1
  }

  lemma SplitByEnds(secureMode: bool, env: Attribution, t: Table, p: nat, s: nat, e1: nat, s1: nat, q: nat, s2: nat,
                    e: nat, flags: bv32)
    requires env.Valid() && Selected(secureMode, env, flags) == Some(t) && Cut(p, s, s1, q, s2)
    requires e1 == q - 1 && e == p + s - 1
    ensures Check(secureMode, env, p, s, flags) == p <==> Ends(secureMode, t, p, e, flags)
    ensures PartsPass(secureMode, env, t, p, s1, q, s2, flags) <==>
            Ends(secureMode, t, p, e1, flags) && Ends(secureMode, t, q, e, flags) && Query(t, p) == Query(t, q)
  {
    CheckIsEnds(secureMode, env, t, p, s1, e1, flags);
    CheckIsEnds(secureMode, env, t, q, s2, e, flags);
    CheckIsEnds(secureMode, env, t, p, s, e, flags);
  }

  /** A range passes exactly when its two parts pass and have the same query result.  From the parts to
      the whole this needs nothing of the table. */
  lemma Split(secureMode: bool, env: Attribution, t: Table, p: nat, s: nat, s1: nat, q: nat, s2: nat, flags: bv32)
    requires env.Valid() && Selected(secureMode, env, flags) == Some(t) && Cut(p, s, s1, q, s2)
    ensures PartsPass(secureMode, env, t, p, s1, q, s2, flags) ==> Check(secureMode, env, p, s, flags) == p
    ensures Uninterrupted(t, secureMode, flags) ==>
              (Check(secureMode, env, p, s, flags) == p <==> PartsPass(secureMode, env, t, p, s1, q, s2, flags))
  {
    SplitByEnds(secureMode, env, t, p, s, q - 1, s1, q, s2, p + s - 1, flags);
    if Uninterrupted(t, secureMode, flags) {
      EndsSplit(secureMode, t, p, q - 1, q, p + s - 1, flags);
    }
  }

  ghost predicate Splits(secureMode: bool, env: Attribution, t: Table, flags: bv32)
    requires env.Valid() && ValidTable(t)
  {
    forall p: nat, s: nat, s1: nat, q: nat, s2: nat :: Cut(p, s, s1, q, s2) ==>
      (Check(secureMode, env, p, s, flags) == p <==> PartsPass(secureMode, env, t, p, s1, q, s2, flags))
  }

  /** A range that passes, cut where a region interrupts: the parts have different query results. */
  lemma InterruptedCut(secureMode: bool, env: Attribution, t: Table, flags: bv32, i: nat, k: nat, j: nat)
    requires env.Valid() && Selected(secureMode, env, flags) == Some(t)
    requires Shared(t, secureMode, flags, i, j) && i < k < j && t[k].info != t[i].info
    ensures !Splits(secureMode, env, t, flags)
  {
    var p, s, r := InterruptedRange(secureMode, env, t, flags, i, k, j);
    var q, s1, s2: nat := t[k].base, r - 1, s - r + 1;
    assert !PartsPass(secureMode, env, t, p, s1, q, s2, flags) by {
      LocateUnique(t, p, i);
      LocateUnique(t, q, k);
    }
    assert Cut(p, s, s1, q, s2);
  }

  /** The splitting law holds for every range and every cut if and only if no region interrupts. */
  lemma SplitIsExact(secureMode: bool, env: Attribution, t: Table, flags: bv32)
    requires env.Valid() && Selected(secureMode, env, flags) == Some(t)
    ensures Splits(secureMode, env, t, flags) <==> Uninterrupted(t, secureMode, flags)
  {
    if Uninterrupted(t, secureMode, flags) {
      forall p: nat, s: nat, s1: nat, q: nat, s2: nat | Cut(p, s, s1, q, s2)
        ensures Check(secureMode, env, p, s, flags) == p <==> PartsPass(secureMode, env, t, p, s1, q, s2, flags)
      {
        Split(secureMode, env, t, p, s, s1, q, s2, flags);
      }
    } else {
      var i: nat, k: nat, j: nat :| Shared(t, secureMode, flags, i, j) && i < k < j && t[k].info != t[i].info;
      InterruptedCut(secureMode, env, t, flags, i, k, j);
    }
  }

  // ----- query results must tell regions apart

  /** Background memory that no unit numbers, readable or not. */
  function Background(readable: bool): Info {
    Info(0, 0, false, false, readable, false, false, false, false, false, 0)
  }

  /** A table whose first and third region have the same readable result, around one that is not readable. */
  function AmbiguousTable(): Table {
    [Region(0, 31, Background(true)), Region(32, 63, Background(false)), Region(64, ADDRESS_SPACE - 1, Background(true))]
  }

  lemma AmbiguousTableValid()
    ensures ValidTable(AmbiguousTable())
  {
  }

  /** With such a table a read request passes for bytes 16 to 79, although byte 40 is not readable. */
  lemma AmbiguousExample(env: Attribution)
    requires env == Attribution(AmbiguousTable(), AmbiguousTable(), AmbiguousTable(), AmbiguousTable())
    ensures env.Valid()
    ensures Check(false, env, 16, 64, MPU_READ) == 16
    ensures Check(false, env, 40, 1, MPU_READ) == 0
  {
    var t := AmbiguousTable();
    AmbiguousTableValid();
    LocateUnique(t, 16, 0);
    LocateUnique(t, 79, 2);
    LocateUnique(t, 40, 1);
    CheckWithoutShortcut(false, env, 16, 64, MPU_READ);
    CheckWithoutShortcut(false, env, 40, 1, MPU_READ);
  }
}
