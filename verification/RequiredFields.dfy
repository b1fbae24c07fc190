/** What the check for missing required fields finds, and when it finds every one. */
module RequiredFields {
  import opened Base128
  import opened Wire
  import opened Decoder
  import opened Framing
  import opened RoundTrip

  predicate Required(f: Field) { f.lbl == REQUIRED && f.dflt == NoDefault }

  predicate Scanned(fs: seq<Field>, items: seq<Item>, f: nat)
  {
    exists k :: 0 <= k < |items| && FindField(fs, items[k].tag) == f
  }

  // What the check is meant to say: every required field without a default was scanned.
  predicate AllScanned(fs: seq<Field>, items: seq<Item>)
  {
    forall f :: 0 <= f < |fs| && Required(fs[f]) ==> Scanned(fs, items, f)
  }

  // A field is reported only when it was not scanned.
  lemma ReportedIsMissing(fs: seq<Field>, items: seq<Item>)
    ensures AllScanned(fs, items) ==> RequiredOk(fs, items)
  {
    forall f | 0 <= f < |fs| && Scanned(fs, items, f) ensures !ReportedMissing(fs, items, f) {
      var k :| 0 <= k < |items| && FindField(fs, items[k].tag) == f;
      assert fs[f].lbl == REQUIRED ==> MarksByte(fs, items[k], (f / 8) % 16);
    }
  }

  // A required field that sits first in its group of eight and has its bitmap byte to itself.
  predicate Watched(fs: seq<Field>, f: nat)
    requires f < |fs|
  {
    && f % 8 == 0
    && forall g :: 0 <= g < |fs| && fs[g].lbl == REQUIRED && g != f ==> (g / 8) % 16 != (f / 8) % 16
  }

  // The items of all the required fields but one.
  function AllBut(fs: seq<Field>, f: nat, n: nat): (items: seq<Item>)
    requires n <= |fs|
    ensures forall g :: 0 <= g < n && g != f && fs[g].lbl == REQUIRED ==>
              exists k :: 0 <= k < |items| && items[k].tag == fs[g].id
    ensures forall k :: 0 <= k < |items| ==> exists g :: 0 <= g < n && g != f && items[k].tag == fs[g].id
  {
    if n == 0 then [] else
      var items := AllBut(fs, f, n - 1);
      if n - 1 == f || fs[n - 1].lbl != REQUIRED then items else
        var it := Item(fs[n - 1].id, VARINT, [0]);
        assert (items + [it])[|items|] == it;
        assert forall k :: 0 <= k < |items| ==> (items + [it])[k] == items[k];
        items + [it]
  }

  // One field that is not watched can be left out unnoticed.
  lemma Unnoticed(S: Schema, d: nat, f: nat)
    requires WellFormed(S) && d < |S| && f < |S[d]| && Required(S[d][f]) && !Watched(S[d], f)
    ensures exists items: seq<Item> :: RequiredOk(S[d], items) && !Scanned(S[d], items, f)
  {
    var fs := S[d];
    var items := AllBut(fs, f, |fs|);
    forall k | 0 <= k < |items| ensures FindField(fs, items[k].tag) != f {
      var g :| 0 <= g < |fs| && g != f && items[k].tag == fs[g].id;
      FindsField(S, d, g);
    }
    forall h | 0 <= h < |fs| && fs[h].lbl == REQUIRED && h != f
      ensures exists k :: 0 <= k < |items| && MarksByte(fs, items[k], (h / 8) % 16)
    {
      var k :| 0 <= k < |items| && items[k].tag == fs[h].id;
      FindsField(S, d, h);
    }
    assert RequiredOk(fs, items);
  }

  // The check finds every missing field exactly for the descriptors whose required fields are all watched.
  lemma CheckIsCompleteIff(S: Schema, d: nat)
    requires WellFormed(S) && d < |S|
    ensures (forall items: seq<Item> :: RequiredOk(S[d], items) ==> AllScanned(S[d], items)) <==>
            (forall f :: 0 <= f < |S[d]| && Required(S[d][f]) ==> Watched(S[d], f))
  {
    var fs := S[d];
    if f :| 0 <= f < |fs| && Required(fs[f]) && !Watched(fs, f) {
      Unnoticed(S, d, f);
    } else {
      forall items: seq<Item> | RequiredOk(fs, items) ensures AllScanned(fs, items) {
        forall f | 0 <= f < |fs| && Required(fs[f]) ensures Scanned(fs, items, f) {
          assert !ReportedMissing(fs, items, f);
          var k :| 0 <= k < |items| && MarksByte(fs, items[k], (f / 8) % 16);
          assert FindField(fs, items[k].tag) == f;
        }
      }
    }
  }

  // Two required numbers: the message without the second one is accepted.
  function TwoRequired(): Schema
  {
    [[Field(1, REQUIRED, UINT32, 0, false, NoDefault), Field(2, REQUIRED, UINT32, 0, false, NoDefault)]]
  }

  // The bytes of the first number alone, holding 5.
  lemma FirstFieldAlone()
    ensures Lex([8, 5]) == Some([Item(1, VARINT, [5])]) && Val([5]) == 5
  {
    var it := Item(1, VARINT, [5]);
    assert Varint(8) == [8] && ItemBytes(it) == [8, 5];
    assert VarintPrefix([5], 10) == 1;
    LexFlatten([it]);
    assert [it][1..] == [] && Flatten([it]) == [8, 5];
    assert [5][1..] == [];
  }

  lemma FirstFieldParsed(m: Message)
    requires m == Message(0, [Single(Word(0)), Single(Word(0))], [])
    ensures FindField(TwoRequired()[0], 1) == 0
    ensures Apply(TwoRequired(), TwoRequired()[0], m, Item(1, VARINT, [5]))
            == Some(Message(0, [Single(Word(5)), Single(Word(0))], []))
  {
    FirstFieldAlone();
    FindsField(TwoRequired(), 0, 0);
    assert ParseWord(UINT32, VARINT, [5]) == Some(5);
    assert m.members[0 := Single(Word(5))] == [Single(Word(5)), Single(Word(0))];
  }

  lemma FirstFieldApplied()
    ensures WellFormed(TwoRequired()) && FindField(TwoRequired()[0], 1) == 0
    ensures ApplyAll(TwoRequired(), TwoRequired()[0], Message(0, InitMembers(TwoRequired()[0]), []),
                     [Item(1, VARINT, [5])], 2)
            == Some(Message(0, [Single(Word(5)), Single(Word(0))], []))
  {
    var m := Message(0, InitMembers(TwoRequired()[0]), []);
    assert m.members == [Single(Word(0)), Single(Word(0))];
    FirstFieldParsed(m);
    assert [Item(1, VARINT, [5])][1..] == [];
  }

  lemma MissingFieldAccepted()
    ensures WellFormed(TwoRequired())
    ensures Lex([8, 5]) == Some([Item(1, VARINT, [5])]) && !AllScanned(TwoRequired()[0], [Item(1, VARINT, [5])])
    ensures Decode(TwoRequired(), 0, [8, 5]) == Some(Message(0, [Single(Word(5)), Single(Word(0))], []))
  {
    var fs := TwoRequired()[0];
    FirstFieldAlone();
    FirstFieldApplied();
    assert MarksByte(fs, [Item(1, VARINT, [5])][0], 0);
    assert RequiredOk(fs, [Item(1, VARINT, [5])]);
  }
}
