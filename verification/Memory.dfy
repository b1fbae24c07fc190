/** Allocated messages, the blocks they own, and releasing them. */
module Memory {
  import opened Base128
  import opened Basics
  import opened Wire

  // The block at an address; NULL is no block.
  function Block(p: nat): multiset<nat>
  {
    if p == 0 then multiset{} else multiset{p}
  }

  // An allocator whose n-th request is refused whenever the schedule says so.
  class Allocator {
    const refuses: nat -> bool
    var requests: nat
    var refused: nat
    var next: nat
    ghost var live: multiset<nat>

    // How many of the first n requests the schedule refuses.
    ghost function Refusals(n: nat): nat
    {
      if n == 0 then 0 else Refusals(n - 1) + if refuses(n - 1) then 1 else 0
    }

    lemma {:induction false} NoneRefused(n: nat)
      requires forall k :: 0 <= k < n ==> !refuses(k)
      ensures Refusals(n) == 0
    {
      if n > 0 { NoneRefused(n - 1); }
    }

    ghost predicate Valid()
      reads this
    {
      next > 0 && refused == Refusals(requests) && forall b :: b in live ==> 0 < b < next && live[b] == 1
    }

    constructor (refuses: nat -> bool)
      ensures Valid() && live == multiset{} && refused == 0
    {
      this.refuses := refuses;
      requests, refused, next, live := 0, 0, 1, multiset{};
    }

    // DO_ALLOC: no block at all for a size of 0
    method Alloc(size: nat) returns (p: nat)
      requires Valid()
      modifies this
      ensures Valid() && live == old(live) + Block(p)
      ensures p != 0 ==> p !in old(live) && size > 0
      ensures refused == old(refused) + if p == 0 && size > 0 then 1 else 0
      ensures requests == old(requests) + if size > 0 then 1 else 0
      ensures size > 0 ==> (p == 0 <==> refuses(old(requests)))
    {
      p := 0;
      if size > 0 {
        if refuses(requests) {
          refused := refused + 1;
        } else {
          p := next;
          next := next + 1;
          live := live + Block(p);
        }
        requests := requests + 1;
      }
    }

    // FREE: only a live block may be released, and then it is live no longer
    method Free(p: nat)
      requires Valid() && (p != 0 ==> p in live)
      modifies this
      ensures Valid() && live == old(live) - Block(p) && p !in live && refused == old(refused)
    {
      live := live - Block(p);
      assert forall b :: b in live ==> b in old(live);
    }
  }

  // ---- messages in memory ----

  // A pointer to a default of the descriptor or to a block of the message's own.
  datatype Ref = Null | Dflt | Own(block: nat)

  datatype MessageRef = NoRef | SubRef(m: AMessage)

  datatype AValue = AWord(w: nat) | AStr(p: Ref, s: Bytes) | ABin(p: Ref, b: Bytes) | AMsg(r: MessageRef)

  // A repeated member has its length, its array with the room that was allocated, and the elements written.
  datatype AMember = ASingle(v: AValue) | AFlagged(has: bool, v: AValue)
                   | AMany(n: nat, arr: nat, room: nat, vs: seq<AValue>)

  datatype AUnknown = AUnknown(tag: nat, wire: nat, data: Bytes, block: nat)

  datatype AMessage = AMessage(block: nat, desc: nat, members: seq<AMember>,
                               nUnknown: nat, unknownArr: nat, unknownRoom: nat, unknown: seq<AUnknown>)

  // ---- the message that memory holds ----

  function ValueIn(v: AValue): Value
    decreases v
  {
    match v
    case AWord(w) => Word(w)
    case AStr(p, s) => Str(match p case Null => NullStr case Dflt => DefaultStr case Own(_) => Text(s))
    case ABin(_, b) => Bin(b)
    case AMsg(r) => Msg(if r.NoRef? then NoMessage else Sub(MessageIn(r.m)))
  }

  function MemberIn(mem: AMember): Member
    decreases mem
  {
    match mem
    case ASingle(v) => Single(ValueIn(v))
    case AFlagged(has, v) => Flagged(has, ValueIn(v))
    case AMany(_, _, _, vs) => Many(seq(|vs|, i requires 0 <= i < |vs| => ValueIn(vs[i])))
  }

  function MessageIn(m: AMessage): Message
    decreases m
  {
    Message(m.desc,
            seq(|m.members|, i requires 0 <= i < |m.members| => MemberIn(m.members[i])),
            seq(|m.unknown|, i requires 0 <= i < |m.unknown| =>
              Unknown(m.unknown[i].tag, m.unknown[i].wire, m.unknown[i].data)))
  }

  // ---- the blocks that a message owns ----

  function OfRef(p: Ref): multiset<nat>
  {
    if p.Own? then Block(p.block) else multiset{}
  }

  function OfValue(v: AValue): multiset<nat>
    decreases v
  {
    match v
    case AWord(_) => multiset{}
    case AStr(p, _) => OfRef(p)
    case ABin(p, _) => OfRef(p)
    case AMsg(r) => if r.NoRef? then multiset{} else OfMessage(r.m)
  }

  function OfValues(vs: seq<AValue>): multiset<nat>
    decreases vs
  {
    if vs == [] then multiset{} else OfValues(vs[..|vs| - 1]) + OfValue(vs[|vs| - 1])
  }

  function OfMember(mem: AMember): multiset<nat>
    decreases mem
  {
    match mem
    case ASingle(v) => OfValue(v)
    case AFlagged(_, v) => OfValue(v)
    case AMany(_, arr, _, vs) => Block(arr) + OfValues(vs)
  }

  function OfMembers(ms: seq<AMember>): multiset<nat>
    decreases ms
  {
    if ms == [] then multiset{} else OfMembers(ms[..|ms| - 1]) + OfMember(ms[|ms| - 1])
  }

  function OfUnknowns(us: seq<AUnknown>): multiset<nat>
  {
    if us == [] then multiset{} else OfUnknowns(us[..|us| - 1]) + Block(us[|us| - 1].block)
  }

  function OfMessage(m: AMessage): multiset<nat>
    decreases m
  {
    Block(m.block) + OfMembers(m.members) + (Block(m.unknownArr) + OfUnknowns(m.unknown))
  }

  // ---- sound messages ----

  predicate Fits(S: Schema, f: Field, v: AValue)
    decreases v
  {
    match f.ty
    case STRING => v.AStr?
    case BYTES => v.ABin?
    case MESSAGE => v.AMsg? && (v.r.SubRef? ==> Sound(S, v.r.m))
    case _ => v.AWord?
  }

  // An element of a repeated member: it never points to a default, and a sub-message is there.
  predicate Element(v: AValue)
  {
    (v.AStr? ==> !v.p.Dflt?) && (v.ABin? ==> !v.p.Dflt?) && (v.AMsg? ==> v.r.SubRef?)
  }

  predicate SoundMember(S: Schema, f: Field, mem: AMember)
    decreases mem
  {
    match f.lbl
    case REPEATED =>
      mem.AMany? && mem.n == |mem.vs|
      && forall i :: 0 <= i < |mem.vs| ==> Fits(S, f, mem.vs[i]) && Element(mem.vs[i])
    case REQUIRED => mem.ASingle? && Fits(S, f, mem.v)
    case OPTIONAL => if Pointer(f.ty) then mem.ASingle? && Fits(S, f, mem.v) else mem.AFlagged? && Fits(S, f, mem.v)
  }

  predicate Sound(S: Schema, m: AMessage)
    decreases m
  {
    && m.block != 0 && m.desc < |S| && |m.members| == |S[m.desc]| && m.nUnknown == |m.unknown|
    && forall i :: 0 <= i < |m.members| ==> SoundMember(S, S[m.desc][i], m.members[i])
  }

  // ---- splitting what is owned ----

  lemma {:induction false} OfValuesSplit(vs: seq<AValue>, i: nat)
    requires i < |vs|
    ensures OfValues(vs[i..]) == OfValue(vs[i]) + OfValues(vs[i + 1..])
    decreases |vs|
  {
    var n := |vs| - 1;
    if i == n {
      assert vs[i..] == [vs[i]] && vs[i..][..0] == [];
    } else {
      OfValuesSplit(vs[..n], i);
      Slices(vs, i);
      AddAssociates(OfValue(vs[i]), OfValues(vs[..n][i + 1..]), OfValue(vs[n]));
    }
  }

  lemma {:induction false} OfMembersSplit(ms: seq<AMember>, i: nat)
    requires i < |ms|
    ensures OfMembers(ms[i..]) == OfMember(ms[i]) + OfMembers(ms[i + 1..])
    decreases |ms|
  {
    var n := |ms| - 1;
    if i == n {
      assert ms[i..] == [ms[i]] && ms[i..][..0] == [];
    } else {
      OfMembersSplit(ms[..n], i);
      Slices(ms, i);
      AddAssociates(OfMember(ms[i]), OfMembers(ms[..n][i + 1..]), OfMember(ms[n]));
    }
  }

  // The same element is the last of a and of c, and b and d are what comes before it.
  lemma OfUnknownsStep(a: seq<AUnknown>, b: seq<AUnknown>, c: seq<AUnknown>, d: seq<AUnknown>, x: AUnknown, z: AUnknown)
    requires a != [] && a[..|a| - 1] == b && a[|a| - 1] == z && c != [] && c[..|c| - 1] == d && c[|c| - 1] == z
    requires OfUnknowns(b) == Block(x.block) + OfUnknowns(d)
    ensures OfUnknowns(a) == Block(x.block) + OfUnknowns(c)
  {
    FirstOut(OfUnknowns(a), OfUnknowns(b), OfUnknowns(c), Block(x.block), OfUnknowns(d), Block(z.block));
  }

  lemma OfUnknownsOne(a: seq<AUnknown>)
    requires |a| == 1
    ensures OfUnknowns(a) == Block(a[0].block)
  {
    assert a[..0] == [];
  }

  lemma {:induction false} OfUnknownsSplit(us: seq<AUnknown>, i: nat)
    requires i < |us|
    ensures OfUnknowns(us[i..]) == Block(us[i].block) + OfUnknowns(us[i + 1..])
    decreases |us|
  {
    var n := |us| - 1;
    if i == n {
      OfUnknownsOne(us[i..]);
      assert us[i + 1..] == [];
    } else {
      OfUnknownsSplit(us[..n], i);
      Slices(us, i);
      OfUnknownsStep(us[i..], us[..n][i..], us[i + 1..], us[..n][i + 1..], us[i], us[n]);
    }
  }

  // Replacing one member changes what is owned by the difference of the two.
  lemma {:induction false} OfMembersUpdate(ms: seq<AMember>, i: nat, mem: AMember)
    requires i < |ms|
    ensures OfMembers(ms[i := mem]) + OfMember(ms[i]) == OfMembers(ms) + OfMember(mem)
    decreases |ms|
  {
    var n := |ms| - 1;
    if i == n {
      assert ms[i := mem][..n] == ms[..n];
    } else {
      var front, now := ms[..n], ms[..n][i := mem];
      assert ms[i := mem][..n] == now;
      OfMembersUpdate(front, i, mem);
      AddLast(OfMembers(now), OfMember(ms[i]), OfMembers(front), OfMember(mem), OfMember(ms[n]));
    }
  }

  // The first part of a sum moves past the last one.
  lemma FirstOut(whole: multiset<nat>, front: multiset<nat>, tail: multiset<nat>, one: multiset<nat>,
                 mid: multiset<nat>, last: multiset<nat>)
    requires whole == front + last && front == one + mid && tail == mid + last
    ensures whole == one + tail
  {
  }

  lemma AddAssociates(a: multiset<nat>, b: multiset<nat>, c: multiset<nat>)
    ensures (a + b) + c == a + (b + c)
  {
  }

  // The end of a sequence from i on, with and without its last element.
  lemma Slices<T>(s: seq<T>, i: nat)
    requires i < |s| - 1
    ensures var n := |s| - 1;
            && s[i..][..n - i] == s[..n][i..] && s[i..][n - i] == s[n] && |s[i..]| - 1 == n - i
            && s[i + 1..][..n - i - 1] == s[..n][i + 1..] && s[i + 1..][n - i - 1] == s[n]
            && |s[i + 1..]| - 1 == n - i - 1
            && s[..n][i] == s[i]
  {
  }

  // What a message owns besides one of its members.
  function OfAllBut(m: AMessage, i: nat): multiset<nat>
    requires i < |m.members|
  {
    OfMessage(m) - OfMember(m.members[i])
  }

  lemma OfAllButSplits(rv: AMessage, i: nat)
    requires i < |rv.members|
    ensures OfMessage(rv) == OfAllBut(rv, i) + OfMember(rv.members[i])
  {
    OfMembersHas(rv.members, i);
  }

  lemma MemberStored(rv: AMessage, i: nat, mem: AMember)
    requires i < |rv.members|
    ensures var rv' := rv.(members := rv.members[i := mem]);
            OfMessage(rv') == OfAllBut(rv, i) + OfMember(mem)
            && MessageIn(rv') == MessageIn(rv).(members := MessageIn(rv).members[i := MemberIn(mem)])
  {
    var rv' := rv.(members := rv.members[i := mem]);
    OfMembersUpdate(rv.members, i, mem);
    OfMembersHas(rv.members, i);
    Exchange(Block(rv.block), OfMembers(rv.members), OfMember(rv.members[i]), OfMembers(rv'.members), OfMember(mem),
             Block(rv.unknownArr) + OfUnknowns(rv.unknown));
    assert MessageIn(rv').members == MessageIn(rv).members[i := MemberIn(mem)];
  }

  lemma Exchange(a: multiset<nat>, all: multiset<nat>, x: multiset<nat>, all': multiset<nat>, y: multiset<nat>,
                 b: multiset<nat>)
    requires all' + x == all + y && x <= all
    ensures a + all' + b == (a + all + b - x) + y
  {
    forall p ensures (a + all' + b)[p] == ((a + all + b - x) + y)[p] {
      assert all'[p] + x[p] == (all' + x)[p] == (all + y)[p] == all[p] + y[p];
    }
  }

  lemma {:induction false} OfMembersHas(ms: seq<AMember>, i: nat)
    requires i < |ms|
    ensures OfMember(ms[i]) <= OfMembers(ms)
    decreases |ms|
  {
    if i < |ms| - 1 { OfMembersHas(ms[..|ms| - 1], i); }
  }

  // ---- releasing ----

  // protobuf_c_message_free_unpacked: every block of the message is released, each exactly once
  method FreeUnpacked(S: Schema, al: Allocator, m: AMessage, ghost rest: multiset<nat>)
    requires al.Valid() && Sound(S, m) && al.live == rest + OfMessage(m)
    modifies al
    ensures al.Valid() && al.live == rest && al.refused == old(al.refused)
    decreases m, 5
  {
    var fs := S[m.desc];
    ghost var tail := Block(m.block) + (Block(m.unknownArr) + OfUnknowns(m.unknown));
    assert m.members[0..] == m.members;
    assert al.live == (rest + tail) + OfMembers(m.members[0..]);
    for f := 0 to |fs|
      invariant al.Valid() && al.refused == old(al.refused)
      invariant al.live == (rest + tail) + OfMembers(m.members[f..])
    {
      OfMembersSplit(m.members, f);
      FreeMember(S, al, fs[f], m.members[f], (rest + tail) + OfMembers(m.members[f + 1..]));
    }
    FreeUnknowns(al, m, rest + Block(m.block));
    al.Free(m.block);
  }

  // A block is released that is not among the rest.
  method FreeBlock(al: Allocator, p: nat, ghost rest: multiset<nat>)
    requires al.Valid() && al.live == rest + Block(p)
    modifies al
    ensures al.Valid() && al.live == rest && al.refused == old(al.refused)
  {
    al.Free(p);
  }

  lemma OneOut(base: multiset<nat>, whole: multiset<nat>, one: multiset<nat>, tail: multiset<nat>)
    returns (left: multiset<nat>)
    requires whole == one + tail
    ensures left == base + tail && base + whole == left + one
  {
    left := base + tail;
  }

  method FreeUnknowns(al: Allocator, m: AMessage, ghost rest: multiset<nat>)
    requires al.Valid() && m.nUnknown == |m.unknown|
    requires al.live == rest + (Block(m.unknownArr) + OfUnknowns(m.unknown))
    modifies al
    ensures al.Valid() && al.live == rest && al.refused == old(al.refused)
  {
    ghost var arr := rest + Block(m.unknownArr);
    assert m.unknown[0..] == m.unknown;
    for f := 0 to m.nUnknown
      invariant al.Valid() && al.refused == old(al.refused) && al.live == arr + OfUnknowns(m.unknown[f..])
    {
      OfUnknownsSplit(m.unknown, f);
      ghost var left :=
        OneOut(arr, OfUnknowns(m.unknown[f..]), Block(m.unknown[f].block), OfUnknowns(m.unknown[f + 1..]));
      FreeBlock(al, m.unknown[f].block, left);
    }
    FreeBlock(al, m.unknownArr, rest);
  }

  method FreeMember(S: Schema, al: Allocator, f: Field, mem: AMember, ghost rest: multiset<nat>)
    requires al.Valid() && SoundMember(S, f, mem) && al.live == rest + OfMember(mem)
    modifies al
    ensures al.Valid() && al.live == rest && al.refused == old(al.refused)
    decreases mem, 4
  {
    if f.lbl == REPEATED {
      assert mem.vs[0..] == mem.vs;
      if f.ty == STRING || f.ty == BYTES || f.ty == MESSAGE {
        ghost var arr := rest + Block(mem.arr);
        for i := 0 to mem.n
          invariant al.Valid() && al.refused == old(al.refused) && al.live == arr + OfValues(mem.vs[i..])
        {
          OfValuesSplit(mem.vs, i);
          ghost var left := OneOut(arr, OfValues(mem.vs[i..]), OfValue(mem.vs[i]), OfValues(mem.vs[i + 1..]));
          FreeValue(S, al, f, mem.vs[i], left);
        }
      } else {
        WordsOwnNothing(S, f, mem.vs);
      }
      FreeBlock(al, mem.arr, rest);
    } else {
      FreeValue(S, al, f, mem.v, rest);
    }
  }

  lemma {:induction false} WordsOwnNothing(S: Schema, f: Field, vs: seq<AValue>)
    requires Packable(f.ty) && forall i :: 0 <= i < |vs| ==> Fits(S, f, vs[i])
    ensures OfValues(vs) == multiset{}
  {
    if vs != [] { WordsOwnNothing(S, f, vs[..|vs| - 1]); }
  }

  // A value of its own is released, a default is not.
  method FreeValue(S: Schema, al: Allocator, f: Field, v: AValue, ghost rest: multiset<nat>)
    requires al.Valid() && Fits(S, f, v) && al.live == rest + OfValue(v)
    modifies al
    ensures al.Valid() && al.live == rest && al.refused == old(al.refused)
    decreases v, 3
  {
    if f.ty == STRING || f.ty == BYTES {
      if v.p.Own? {
        al.Free(v.p.block);
      }
    } else if f.ty == MESSAGE {
      if v.r.SubRef? {
        FreeUnpacked(S, al, v.r.m, rest);
      }
    }
  }
}
