/** What the members of fields hold that no record was read for. */
module Defaults {
  import opened Base128
  import opened Wire
  import opened Decoder
  import opened RoundTrip
  import opened RequiredFields
  import opened Memory

  // The value of a singular field that is absent: the default of the descriptor, a string by a pointer to it; without
  // a default 0, NULL or no bytes.
  ghost predicate HoldsDefault(f: Field, v: Value)
  {
    if f.dflt.Default? then (if f.ty == STRING then v == Str(DefaultStr) else v == f.dflt.v)
    else if f.ty == STRING then v == Str(NullStr)
    else if f.ty == MESSAGE then v == Msg(NoMessage)
    else if f.ty == BYTES then v == Bin([])
    else v == Word(0)
  }

  // A member that is absent: an array of no elements, or a value whose has-flag, if it has one, is false.
  ghost predicate HoldsNothing(f: Field, mem: Member)
  {
    if f.lbl == REPEATED then mem == Many([])
    else if f.lbl == OPTIONAL && f.ty != STRING && f.ty != MESSAGE then
      mem.Flagged? && !mem.has && HoldsDefault(f, mem.v)
    else mem.Single? && HoldsDefault(f, mem.v)
  }

  lemma {:induction false} UnscannedStays(S: Schema, fs: seq<Field>, m: Message, items: seq<Item>, bound: nat, i: nat)
    requires |m.members| == |fs| && Small(items, bound) && i < |fs| && !Scanned(fs, items, i)
    ensures var r := ApplyAll(S, fs, m, items, bound); r.Some? ==> r.value.members[i] == m.members[i]
    decreases |items|
  {
    if items != [] {
      assert FindField(fs, items[0].tag) != i;
      var next := Apply(S, fs, m, items[0]);
      if next.Some? {
        assert forall k :: 0 <= k < |items| - 1 ==> items[1..][k] == items[k + 1];
        UnscannedStays(S, fs, next.value, items[1..], bound, i);
      }
    }
  }

  // Whatever bytes decode: a field that none of their records is for holds its default, or nothing.
  lemma AbsentIsDefault(S: Schema, d: nat, data: Bytes, i: nat)
    requires WellFormed(S) && d < |S| && i < |S[d]| && Decode(S, d, data).Some?
    requires !Scanned(S[d], Lex(data).value, i)
    ensures HoldsNothing(S[d][i], Decode(S, d, data).value.members[i])
  {
    assert WellFormedField(S, S[d][i]);
    UnscannedStays(S, S[d], Message(d, InitMembers(S[d]), []), Lex(data).value, |data|, i);
  }

  // So no bytes at all unpack to a message of defaults, if the check for required fields lets it pass.
  lemma NothingIsDefaults(S: Schema, d: nat)
    requires WellFormed(S) && d < |S|
    ensures var r := Decode(S, d, []);
            && (r.Some? <==> RequiredOk(S[d], []))
            && (r.Some? ==> r.value.unknown == [])
            && (r.Some? ==> forall i :: 0 <= i < |S[d]| ==> HoldsNothing(S[d][i], r.value.members[i]))
  {
    if RequiredOk(S[d], []) {
      forall i | 0 <= i < |S[d]| ensures HoldsNothing(S[d][i], Decode(S, d, []).value.members[i]) {
        AbsentIsDefault(S, d, [], i);
      }
    }
  }

  // A member in memory that holds nothing: an array of the length 0, or a value whose pointer, if it is one, is that
  // of the default, or NULL.
  ghost predicate EmptyInMemory(f: Field, mem: AMember)
  {
    if f.lbl == REPEATED then mem.AMany? && mem.n == 0
    else
      && !mem.AMany?
      && (f.ty == STRING ==> mem.v.AStr? && mem.v.p == if f.dflt.Default? then Dflt else Null)
      && (f.ty == BYTES ==> mem.v.ABin? && mem.v.b == if f.dflt.Default? && f.dflt.v.Bin? then f.dflt.v.b else [])
      && (f.ty == MESSAGE ==> mem.v == AMsg(NoRef))
      && (Packable(f.ty) ==> mem.v == AWord(if f.dflt.Default? && f.dflt.v.Word? then f.dflt.v.w else 0))
  }

  lemma NothingInMemory(S: Schema, f: Field, mem: AMember)
    requires WellFormedField(S, f) && SoundMember(S, f, mem) && HoldsNothing(f, MemberIn(mem))
    ensures EmptyInMemory(f, mem)
  {
    if f.lbl != REPEATED {
      assert Fits(S, f, mem.v);
      ValueInMemory(f, mem.v);
    }
  }

  lemma ValueInMemory(f: Field, v: AValue)
    requires HoldsDefault(f, ValueIn(v)) && DefaultFits(f)
    ensures v.AStr? && f.ty == STRING ==> v.p == if f.dflt.Default? then Dflt else Null
    ensures v.ABin? && f.ty == BYTES ==> v.b == if f.dflt.Default? then f.dflt.v.b else []
    ensures v.AMsg? && f.ty == MESSAGE ==> v.r == NoRef
    ensures v.AWord? && Packable(f.ty) ==> v.w == if f.dflt.Default? then f.dflt.v.w else 0
  {
  }

  // In the message that the unpacker allocates, the absent members are empty.
  lemma AbsentInMemory(S: Schema, d: nat, data: Bytes, rv: AMessage, i: nat)
    requires WellFormed(S) && d < |S| && i < |S[d]| && Decode(S, d, data) == Some(MessageIn(rv))
    requires !Scanned(S[d], Lex(data).value, i) && Sound(S, rv)
    ensures i < |rv.members| && EmptyInMemory(S[d][i], rv.members[i])
  {
    AbsentIsDefault(S, d, data, i);
    assert WellFormedField(S, S[d][i]);
    assert MemberIn(rv.members[i]) == MessageIn(rv).members[i];
    NothingInMemory(S, S[d][i], rv.members[i]);
  }

  // A member that was not packed comes back as the default, or as nothing.
  lemma UnpackedAsDefault(S: Schema, m: Message, i: nat)
    requires Good(S, m) && |Encode(S, m)| < TWO_32 && i < |m.members| && S[m.desc][i].lbl != REQUIRED
    requires var mem := m.members[i];
             mem == Many([]) || (mem.Flagged? && !mem.has)
             || mem in {Single(Str(NullStr)), Single(Str(DefaultStr)), Single(Msg(NoMessage))}
    ensures var r := Decode(S, m.desc, Encode(S, m));
            r.Some? && HoldsNothing(S[m.desc][i], r.value.members[i])
  {
    MessageRoundTrip(S, m);
    var f := S[m.desc][i];
    assert WellFormedField(S, f) && TypedMember(S, f, m.members[i]);
    assert Canon(S, m).members[i] == CanonMember(S, f, m.members[i]);
  }

  // An optional number with the default 5 is 5 if it is absent, and not marked as present.
  lemma FiveByDefault(lbl: Label, ty: ProtoType)
    requires lbl != REPEATED && ty in {INT32, INT64, UINT32, UINT64, ENUM, FIXED32, FIXED64, SFIXED32, SFIXED64}
    ensures var S := [[Field(1, lbl, ty, 0, false, Default(Word(5)))]];
            Decode(S, 0, []) ==
              Some(Message(0, [if lbl == OPTIONAL then Flagged(false, Word(5)) else Single(Word(5))], []))
  {
    var S := [[Field(1, lbl, ty, 0, false, Default(Word(5)))]];
    assert WellFormed(S);
    NothingIsDefaults(S, 0);
    assert RequiredOk(S[0], []);
    var m := Decode(S, 0, []).value;
    assert m.members == [m.members[0]];
  }
}
