/** Between the two passes: required fields are checked, and every array is allocated with the room that was counted. */
module ArrayPass {
  import opened Basics
  import opened Wire
  import opened Decoder
  import opened Counting
  import opened Memory
  import opened ScanPass

  function Start(S: Schema, d: nat): Message
    requires d < |S|
  {
    Message(d, InitMembers(S[d]), [])
  }

  // Arrays have the room that was counted.
  predicate Prepared(fs: seq<Field>, rv: AMessage, items: seq<Item>)
  {
    && |rv.members| == |fs| && rv.unknownRoom == Unknowns(fs, items)
    && (forall k :: 0 <= k < |items| ==> Countable(fs, items[k]))
    && forall i :: 0 <= i < |fs| && fs[i].lbl == REPEATED ==>
         rv.members[i].AMany? && rv.members[i].room == Elements(fs, items, i)
  }

  // REQUIRED_FIELD_BITMAP_IS_SET behind the negation of its caller: the macro has no outer parentheses, so the
  // negation applies to the whole byte and the bit is taken of the result, which is 0 or 1.
  predicate NotIsSet(bitmap: Bitmap, index: nat)
    requires |bitmap| == 16
  {
    bitmap[(index / 8) % 16] == {} && index % 8 == 0
  }

  // A message of descriptor d that has no unknown fields yet.
  predicate Bare(S: Schema, d: nat, m: AMessage)
  {
    d < |S| && m == AMessage(m.block, d, m.members, 0, 0, 0, []) && |m.members| == |S[d]|
  }

  // A member before and after the array of its field has been allocated.
  predicate Before(fs: seq<Field>, items: seq<Item>, i: nat, mem: AMember)
    requires i < |fs|
  {
    DefaultFits(fs[i]) && mem == ScannedInto(fs, items, i)
  }

  predicate After(fs: seq<Field>, items: seq<Item>, i: nat, mem: AMember)
    requires i < |fs|
  {
    && DefaultFits(fs[i])
    && if fs[i].lbl != REPEATED then mem == FreshMember(fs[i])
       else mem.AMany? && mem == AMany(0, mem.arr, Elements(fs, items, i), [])
  }

  predicate ArrayState(S: Schema, d: nat, items: seq<Item>, f: nat, rv: AMessage)
  {
    && Bare(S, d, rv)
    && (forall i :: 0 <= i < |S[d]| && i < f ==> After(S[d], items, i, rv.members[i]))
    && forall i :: f <= i < |S[d]| ==> Before(S[d], items, i, rv.members[i])
  }

  // A member without elements and with a length of 0 can be released.
  predicate Cleared(f: Field, mem: AMember)
  {
    DefaultFits(f) && if f.lbl == REPEATED then mem.AMany? && mem.n == 0 && mem.vs == [] else mem == FreshMember(f)
  }

  predicate ClearedTo(S: Schema, d: nat, items: seq<Item>, f: nat, rv: AMessage)
  {
    && Bare(S, d, rv)
    && (forall i :: 0 <= i < |S[d]| && i < f ==> Cleared(S[d][i], rv.members[i]))
    && forall i :: f <= i < |S[d]| ==> Before(S[d], items, i, rv.members[i])
  }

  lemma ClearedIsSound(S: Schema, d: nat, items: seq<Item>, rv: AMessage)
    requires WellFormed(S) && d < |S| && ClearedTo(S, d, items, |S[d]|, rv) && rv.block != 0
    ensures Sound(S, rv)
  {
    var fs := S[d];
    forall i | 0 <= i < |fs| ensures SoundMember(S, fs[i], rv.members[i]) {
      assert WellFormedField(S, fs[i]) && Cleared(fs[i], rv.members[i]);
      FreshMemberIn(S, fs[i]);
    }
  }

  lemma CountStored(S: Schema, d: nat, m: AMessage, f: nat, mem: AMember)
    requires Bare(S, d, m) && f < |m.members|
    ensures Bare(S, d, m.(members := m.members[f := mem]))
    ensures OfMember(mem) == OfMember(m.members[f]) ==> OfMessage(m.(members := m.members[f := mem])) == OfMessage(m)
  {
    MemberStored(m, f, mem);
    OfAllButSplits(m, f);
  }

  // CLEAR_REMAINING_N_PTRS
  method ClearRemaining(S: Schema, d: nat, rv0: AMessage, f0: nat, ghost items: seq<Item>) returns (rv: AMessage)
    requires WellFormed(S) && d < |S| && f0 <= |S[d]| && rv0.block != 0 && ClearedTo(S, d, items, f0, rv0)
    ensures Sound(S, rv) && rv.desc == d && rv.block == rv0.block && OfMessage(rv) == OfMessage(rv0)
  {
    var fs := S[d];
    rv := rv0;
    for f := f0 to |fs|
      invariant ClearedTo(S, d, items, f, rv) && rv.block == rv0.block && OfMessage(rv) == OfMessage(rv0)
    {
      assert Before(fs, items, f, rv.members[f]);
      if fs[f].lbl == REPEATED {
        CountStored(S, d, rv, f, rv.members[f].(n := 0));
        rv := rv.(members := rv.members[f := rv.members[f].(n := 0)]);
      }
    }
    ClearedIsSound(S, d, items, rv);
  }

  // The array of a repeated field, at p, takes the place of the count of its elements.
  lemma ArrayPlaced(S: Schema, d: nat, rv0: AMessage, f: nat, items: seq<Item>, p: nat) returns (rv: AMessage)
    requires d < |S| && f < |S[d]| && S[d][f].lbl == REPEATED && ArrayState(S, d, items, f, rv0)
    requires rv0.members[f].AMany? && rv0.members[f].n != 0
    ensures rv == rv0.(members := rv0.members[f := AMany(0, p, rv0.members[f].n, [])])
    ensures OfMessage(rv) == OfMessage(rv0) + Block(p)
    ensures p != 0 ==> Whole(ArrayState(S, d, items, f + 1, rv))
    ensures p == 0 ==> Whole(ClearedTo(S, d, items, f + 1, rv))
  {
    assert Before(S[d], items, f, rv0.members[f]);
    var mem := AMany(0, p, rv0.members[f].n, []);
    OfAllButSplits(rv0, f);
    MemberStored(rv0, f, mem);
    rv := rv0.(members := rv0.members[f := mem]);
  }

  lemma NoElements(S: Schema, d: nat, rv: AMessage, f: nat, items: seq<Item>)
    requires d < |S| && f < |S[d]| && S[d][f].lbl == REPEATED && ArrayState(S, d, items, f, rv)
    ensures rv.members[f].AMany?
    ensures rv.members[f].n == 0 ==> Whole(ArrayState(S, d, items, f + 1, rv))
  {
    assert Before(S[d], items, f, rv.members[f]);
  }

  // Room for the elements of one repeated field; without elements there is no array.
  method AllocateArray(S: Schema, d: nat, al: Allocator, rv0: AMessage, f: nat, ghost items: seq<Item>,
                       ghost rest: multiset<nat>)
    returns (ok: bool, rv: AMessage)
    requires WellFormed(S) && d < |S| && f < |S[d]| && S[d][f].lbl == REPEATED
    requires ArrayState(S, d, items, f, rv0)
    requires al.Valid() && al.live == rest + OfMessage(rv0)
    modifies al
    ensures al.Valid() && al.live == rest + OfMessage(rv) && al.refused >= old(al.refused) && rv.block == rv0.block
    ensures ok ==> Whole(ArrayState(S, d, items, f + 1, rv))
    ensures !ok ==> Whole(ClearedTo(S, d, items, f + 1, rv)) && al.refused > old(al.refused)
  {
    ok, rv := true, rv0;
    NoElements(S, d, rv0, f, items);
    var n := rv.members[f].n;
    if n != 0 {
      var p := al.Alloc(n);
      ghost var placed := ArrayPlaced(S, d, rv0, f, items, p);
      rv := rv.(members := rv.members[f := AMany(0, p, n, [])]);
      ok := p != 0;
    }
  }

  lemma NoArrayNeeded(S: Schema, d: nat, items: seq<Item>, f: nat, rv: AMessage)
    requires ArrayState(S, d, items, f, rv) && f < |S[d]| && S[d][f].lbl != REPEATED
    ensures ArrayState(S, d, items, f + 1, rv) && ClearedTo(S, d, items, f + 1, rv)
  {
    assert Before(S[d], items, f, rv.members[f]);
  }

  lemma MacroTells(fs: seq<Field>, items: seq<Item>, bitmap: Bitmap, f: nat)
    requires BitmapTells(fs, items, bitmap) && f < |fs|
    ensures ReportedMissing(fs, items, f) <==> fs[f].lbl == REQUIRED && fs[f].dflt == NoDefault && NotIsSet(bitmap, f)
  {
  }

  // The loop over the fields between the two passes.
  method AllocateMembers(S: Schema, d: nat, al: Allocator, rv0: AMessage, bitmap: Bitmap, ghost items: seq<Item>,
                         ghost rest: multiset<nat>)
    returns (ok: bool, rv: AMessage)
    requires WellFormed(S) && d < |S| && rv0.block != 0 && ArrayState(S, d, items, 0, rv0)
    requires BitmapTells(S[d], items, bitmap)
    requires al.Valid() && al.live == rest + OfMessage(rv0)
    modifies al
    ensures al.Valid() && al.live == rest + OfMessage(rv) && al.refused >= old(al.refused) && rv.block == rv0.block
    ensures ok ==> ArrayState(S, d, items, |S[d]|, rv) && RequiredOk(S[d], items)
    ensures !ok ==> Sound(S, rv) && rv.desc == d && (!RequiredOk(S[d], items) || al.refused > old(al.refused))
  {
    var fs := S[d];
    rv := rv0;
    for f := 0 to |fs|
      invariant al.Valid() && al.live == rest + OfMessage(rv) && al.refused >= old(al.refused)
      invariant rv.block == rv0.block && ArrayState(S, d, items, f, rv)
      invariant forall g :: 0 <= g < f ==> !ReportedMissing(fs, items, g)
    {
      MacroTells(fs, items, bitmap, f);
      if fs[f].lbl == REPEATED {
        ok, rv := AllocateArray(S, d, al, rv, f, items, rest);
        if !ok {
          rv := ClearRemaining(S, d, rv, f + 1, items);
          return;
        }
      } else {
        NoArrayNeeded(S, d, items, f, rv);
        if fs[f].lbl == REQUIRED && fs[f].dflt == NoDefault && NotIsSet(bitmap, f) {
          rv := ClearRemaining(S, d, rv, f + 1, items);
          return false, rv;
        }
      }
    }
    ok := true;
  }

  // Everything is allocated: the message is the fresh one, with room for what was counted.
  lemma AllocatedIsPrepared(S: Schema, d: nat, items: seq<Item>, rv: AMessage, arr: nat)
    requires WellFormed(S) && d < |S| && ArrayState(S, d, items, |S[d]|, rv) && rv.block != 0
    requires forall k :: 0 <= k < |items| ==> Countable(S[d], items[k])
    ensures var m := rv.(unknownArr := arr, unknownRoom := Unknowns(S[d], items));
            Sound(S, m) && Prepared(S[d], m, items) && MessageIn(m) == Start(S, d)
            && OfMessage(m) == OfMessage(rv) + Block(arr)
  {
    var fs := S[d];
    var m := rv.(unknownArr := arr, unknownRoom := Unknowns(fs, items));
    forall i | 0 <= i < |fs|
      ensures SoundMember(S, fs[i], rv.members[i]) && MemberIn(rv.members[i]) == InitMember(fs[i])
    {
      assert WellFormedField(S, fs[i]) && After(fs, items, i, rv.members[i]);
      FreshMemberIn(S, fs[i]);
    }
    assert MessageIn(m).members == InitMembers(fs);
    forall i | 0 <= i < |fs| && fs[i].lbl == REPEATED
      ensures m.members[i].AMany? && m.members[i].room == Elements(fs, items, i)
    {
      assert After(fs, items, i, rv.members[i]);
    }
  }

  // The arrays of the repeated fields, the check of the required ones, and the array of the unknown fields.
  method AllocateArrays(S: Schema, d: nat, al: Allocator, rv0: AMessage, nUnknown: nat, bitmap: Bitmap,
                        ghost items: seq<Item>, ghost rest: multiset<nat>)
    returns (ok: bool, rv: AMessage)
    requires WellFormed(S) && d < |S| && rv0.block != 0 && ScanState(S, d, items, rv0, nUnknown, bitmap)
    requires al.Valid() && al.live == rest + Block(rv0.block)
    modifies al
    ensures al.Valid() && al.live == rest + OfMessage(rv) && al.refused >= old(al.refused)
    ensures Sound(S, rv) && rv.desc == d
    ensures ok ==> Prepared(S[d], rv, items) && MessageIn(rv) == Start(S, d) && RequiredOk(S[d], items)
    ensures !ok ==> !RequiredOk(S[d], items) || al.refused > old(al.refused)
  {
    ScannedIsBare(S, d, items, rv0, nUnknown, bitmap);
    ok, rv := AllocateMembers(S, d, al, rv0, bitmap, items, rest);
    if ok {
      var arr := 0;
      if nUnknown != 0 {
        arr := al.Alloc(nUnknown);
        ok := arr != 0;
      }
      AllocatedIsPrepared(S, d, items, rv, arr);
      rv := rv.(unknownArr := arr, unknownRoom := nUnknown);
    }
  }

  lemma ScannedIsBare(S: Schema, d: nat, items: seq<Item>, rv: AMessage, nUnknown: nat, bitmap: Bitmap)
    requires WellFormed(S) && ScanState(S, d, items, rv, nUnknown, bitmap)
    ensures ArrayState(S, d, items, 0, rv) && OfMessage(rv) == Block(rv.block)
  {
    forall i | 0 <= i < |rv.members| ensures OfMember(rv.members[i]) == multiset{} {
      assert rv.members[i] == ScannedInto(S[d], items, i) && WellFormedField(S, S[d][i]);
      FreshMemberIn(S, S[d][i]);
    }
    OwnNothing(rv.members);
  }

  lemma {:induction false} OwnNothing(ms: seq<AMember>)
    requires forall i :: 0 <= i < |ms| ==> OfMember(ms[i]) == multiset{}
    ensures OfMembers(ms) == multiset{}
  {
    if ms != [] { OwnNothing(ms[..|ms| - 1]); }
  }

  // A fresh message is one into which no record has been scanned.
  lemma FreshIsScanned(S: Schema, d: nat, m: AMessage)
    requires WellFormed(S) && Bare(S, d, m)
    requires forall i :: 0 <= i < |S[d]| ==> DefaultFits(S[d][i]) && m.members[i] == FreshMember(S[d][i])
    ensures ScanState(S, d, [], m, 0, NoBits())
  {
  }
}
