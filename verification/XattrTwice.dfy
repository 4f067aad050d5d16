/** An attribute that a failed change leaves in both places. */
module XattrTwice {
  import opened XattrPage
  import opened XattrFind
  import opened XattrSet
  import opened XattrStore

  function NameA(): Key { Key(1, [97]) }

  function NameB(): Key { Key(1, [98]) }

  /** Attribute a has the value 1, attribute b is empty. */
  function TwoNames(): Page {
    Page(HEADER, [Entry(NameA(), 1020, 1), Entry(NameB(), 0, 0)], Zeros(1020) + [1, 0, 0, 0])
  }

  function EmptyBody(): Page { Page(0, [], Zeros(64)) }

  /** Two inodes at one attribute block; there is room in the body of the first. */
  function TwoInodes(): Inodes { map[1 := XInode(5, Some(EmptyBody())), 2 := XInode(5, None)] }

  function OneBlock(): Blocks { map[5 := XBlock(2, TwoNames())] }

  lemma TwoEntries(a: Entry, b: Entry)
    ensures Names([a, b]) == NameLen(|a.key.name|) + NameLen(|b.key.name|)
    ensures Values([a, b]) == Padded(a.size) + Padded(b.size)
  {
    assert [a, b][1..] == [b] && [b][1..] == [];
    assert Names([b]) == NameLen(|b.key.name|) && Values([b]) == Padded(b.size);
  }

  lemma TwoPacked(a: Entry, b: Entry)
    requires a.offs == 1020 && a.size == 1 && b.size == 0
    ensures Packed([a, b], 1020, 1024)
  {
    TwoEntries(a, b);
    forall p | 1020 <= p < 1024 ensures Covered([a, b], p) {
      assert Covers([a, b][0], p);
    }
  }

  lemma TwoNamesGood()
    ensures GoodPage(TwoNames(), 1024)
  {
    var pg := TwoNames();
    var a, b := pg.entries[0], pg.entries[1];
    TwoEntries(a, b);
    TwoPacked(a, b);
    MinOfPacked(pg.entries, 1020, 1024);
    hide Packed, Names, Values, MinOffs;
    assert Compare(a.key, b.key) == -1;
  }

  lemma TwoNamesAttrs()
    ensures NameA() in Attrs(TwoNames()) && NameB() in Attrs(TwoNames()) && Attrs(TwoNames())[NameA()] == [1]
  {
    hide Attrs;
    var pg := TwoNames();
    var a, b := pg.entries[0], pg.entries[1];
    AttrsAre(pg);
    assert ValueOf(pg.area, a) == pg.area[1020..1021] == [1];
  }

  lemma BodyFacts()
    ensures Valid(EmptyBody()) && Attrs(EmptyBody()) == map[] && BodyRoom(Some(EmptyBody()), NameA(), [7])
  {
  }

  lemma NameFacts()
    ensures NameA() != NameB() && |NameA().name| == 1
  {
  }

  lemma TwoInodesGood()
    ensures Good(TwoInodes(), OneBlock(), {0, 1, 2, 3, 4, 5}, {}, 1024)
  {
    hide GoodPage, Valid, EmptyBody;
    TwoNamesGood();
    BodyFacts();
    assert Users(TwoInodes(), 5) == {1, 2};
    hide TwoNames;
  }

  lemma CopyNeeded()
    ensures NoBlock(OneBlock(), {0, 1, 2, 3, 4, 5}, 6, {}, 5, NameA(), None)
  {
    hide Attrs, TwoNames, EmptyBody;
    TwoNamesAttrs();
    NameFacts();
    StillSome(Attrs(TwoNames()), NameA());
  }

  /** With no block left, setting attribute a of the first inode fails, and yet the new value is read afterwards.
      Removing the attribute succeeds, and the old value is read again. */
  method StoredTwice() returns (failed: Outcome, now: Option<seq<Byte>>, removed: Outcome, again: Option<seq<Byte>>)
    ensures failed == NoSpace && now == Some([7]) && removed == Done && again == Some([1])
  {
    hide Good, GoodPage, Attrs, BodyRoom, BlockRoom, HasRoom, TwoNames, EmptyBody, NameA, NameB, NoBlock;
    TwoInodesGood();
    CopyNeeded();
    NameFacts();
    BodyFacts();
    TwoNamesAttrs();
    var store := new Store.Mounted(1024, 6, TwoInodes(), OneBlock(), {0, 1, 2, 3, 4, 5});
    failed := store.Set(1, NameA(), Some([7]), false, false);
    assert BlockAttrs(store.blocks, store.inodes[1].acl) == Attrs(TwoNames());
    assert BodyAttrs(store.inodes[1].body) == map[][NameA() := [7]];
    now := store.Read(1, NameA());
    removed := store.Set(1, NameA(), None, false, false);
    again := store.Read(1, NameA());
  }
}
