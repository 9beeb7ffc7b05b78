/**
 * The `_NET_WM_ICON` property (Application Window Properties, freedesktop
 * Extended Window Manager Hints): a flat array of 32-bit words holding
 * back-to-back records `width, height, width*height ARGB pixels`. This module
 * models how `ewmh_window_icon_from_reply` walks those records and picks the
 * one whose size best matches a preferred size.
 */
module NetWmIcon {
  import opened Wrappers
  import opened Words
  import opened Pixels

  /** The predefined X atom CARDINAL. */
  const AtomCardinal: Word := 6

  /**
   * A GetProperty reply. For format 32 the reply's `length` is the number of
   * 32-bit items, which is `value.Length` here.
   */
  datatype PropertyReply = PropertyReply(propertyType: Word, format: Byte, value: array<Word>)

  /** One record of the blob: its header word offset and its two header words. */
  datatype Record = Record(offset: nat, width: Word, height: Word)

  /** A surface handed on for output: dimensions and the premultiplied buffer. */
  datatype Surface = Surface(width: nat, height: nat, data: array<Word>)

  /** The reply header check that precedes any scanning. */
  predicate WellFormed(reply: Option<PropertyReply>) {
    reply.Some? && reply.value.propertyType == AtomCardinal && reply.value.format == 32
    && reply.value.value.Length >= 2
  }

  /** The record's header and its `width * height` pixels lie inside the blob. */
  ghost predicate RecordIn(blob: seq<Word>, r: Record) {
    && r.offset + 2 + PixelCount(r) <= |blob|
    && blob[r.offset] == r.width && blob[r.offset + 1] == r.height
  }

  /** `width * height`, computed without wrap-around as the source does in 64 bits. */
  function PixelCount(r: Record): nat {
    r.width as int * r.height as int
  }

  /** The word offset of the record that follows `r`. */
  function Next(r: Record): nat {
    r.offset + 2 + PixelCount(r)
  }

  /** The two header words at word offset `o`, read as a record. */
  function HeaderAt(blob: seq<Word>, o: nat): Record
    requires o + 1 < |blob|
  {
    Record(o, blob[o], blob[o + 1])
  }

  /** At least two words remain at `o` and the record there fits in the rest of the blob. */
  predicate Fits(blob: seq<Word>, o: nat): (b: bool)
    ensures b ==> o + 1 < |blob| && RecordIn(blob, HeaderAt(blob, o))
  {
    o + 1 < |blob| && PixelCount(HeaderAt(blob, o)) <= |blob| - o - 2
  }

  /**
   * The records the scan visits from word offset `o`: a record is read while
   * at least two words remain and its pixels fit in the words after its
   * header; the first record that does not fit ends the scan.
   */
  ghost function Scan(blob: seq<Word>, o: nat): seq<Record>
    decreases |blob| - o
  {
    if Fits(blob, o) then [HeaderAt(blob, o)] + Scan(blob, Next(HeaderAt(blob, o))) else []
  }

  /**
   * Every scanned record lies wholly inside the blob, the first one starts
   * at `o`, and each next one starts exactly `2 + width * height` words after
   * the previous one: the scan visits records in blob order.
   */
  lemma {:induction false} ScanShape(blob: seq<Word>, o: nat)
    ensures var rs := Scan(blob, o);
            && (forall i :: 0 <= i < |rs| ==> o <= rs[i].offset && RecordIn(blob, rs[i]))
            && (|rs| > 0 ==> rs[0].offset == o)
            && (forall i :: 0 < i < |rs| ==> rs[i].offset == Next(rs[i - 1]))
    decreases |blob| - o
  {
    if Fits(blob, o) {
      var r := HeaderAt(blob, o);
      ScanShape(blob, Next(r));
      var rs := Scan(blob, o);
      assert rs == [r] + Scan(blob, Next(r));
      assert forall i :: 0 < i < |rs| ==> rs[i] == Scan(blob, Next(r))[i - 1];
    }
  }

  /** One scanned record lies wholly inside the blob. */
  lemma ScannedRecordIn(blob: seq<Word>, o: nat, k: nat)
    requires k < |Scan(blob, o)|
    ensures RecordIn(blob, Scan(blob, o)[k])
  {
    ScanShape(blob, o);
  }

  /** A record with a zero dimension is stepped over but never chosen. */
  predicate IsEmpty(r: Record) {
    r.width == 0 || r.height == 0
  }

  /** The size matched against the preference: the greater dimension. */
  function Size(r: Record): Word {
    Max(r.width, r.height)
  }

  /** Some non-empty record in `rs` is at least the preferred size. */
  ghost predicate Reaches(rs: seq<Record>, preferred: nat) {
    exists j :: 0 <= j < |rs| && !IsEmpty(rs[j]) && Size(rs[j]) >= preferred
  }

  /**
   * Record `k` is the one to choose from `rs`: non-empty; of the smallest
   * size at least `preferred` if any record reaches it, of the largest size
   * otherwise; and the earliest record of that size.
   */
  ghost predicate IsBest(rs: seq<Record>, preferred: nat, k: nat) {
    && k < |rs| && !IsEmpty(rs[k])
    && (Reaches(rs, preferred) ==>
          && Size(rs[k]) >= preferred
          && forall j :: 0 <= j < |rs| && !IsEmpty(rs[j]) && Size(rs[j]) >= preferred ==>
               Size(rs[k]) <= Size(rs[j]))
    && (!Reaches(rs, preferred) ==>
          forall j :: 0 <= j < |rs| && !IsEmpty(rs[j]) ==> Size(rs[j]) <= Size(rs[k]))
    && forall j :: 0 <= j < k && !IsEmpty(rs[j]) ==> Size(rs[j]) != Size(rs[k])
  }

  ghost predicate AllEmpty(rs: seq<Record>) {
    forall j :: 0 <= j < |rs| ==> IsEmpty(rs[j])
  }

  /** At most one record is the one to choose. */
  lemma BestIsUnique(rs: seq<Record>, preferred: nat, k1: nat, k2: nat)
    requires IsBest(rs, preferred, k1) && IsBest(rs, preferred, k2)
    ensures k1 == k2
  {
    assert Size(rs[k1]) == Size(rs[k2]);
  }

  /** Some record is the one to choose exactly when not every record is empty. */
  lemma {:induction false} BestExists(rs: seq<Record>, preferred: nat)
    requires !AllEmpty(rs)
    ensures exists k: nat :: IsBest(rs, preferred, k)
  {
    var last := rs[|rs| - 1];
    var init := rs[..|rs| - 1];
    assert forall j :: 0 <= j < |init| ==> init[j] == rs[j];
    if AllEmpty(init) {
      assert IsBest(rs, preferred, |rs| - 1);
    } else {
      BestExists(init, preferred);
      var k: nat :| IsBest(init, preferred, k);
      var chosen := !IsEmpty(last) && Improves(Size(init[k]), Size(last), preferred);
      ImprovesKeepsBest(init, preferred, Some(k), last);
      if chosen {
        assert IsBest(rs, preferred, |rs| - 1);
      } else {
        assert IsBest(rs, preferred, k);
      }
    }
  }

  /** A record of exactly the preferred size, once present, fixes the chosen size. */
  lemma ExactMatchWins(rs: seq<Record>, preferred: nat, k: nat, j: nat)
    requires IsBest(rs, preferred, k)
    requires j < |rs| && !IsEmpty(rs[j]) && Size(rs[j]) == preferred
    ensures Size(rs[k]) == preferred
  {
    assert Reaches(rs, preferred);
  }

  /** The only non-empty record is chosen, whatever the preferred size. */
  lemma OnlyCandidateIsBest(rs: seq<Record>, preferred: nat, k: nat)
    requires k < |rs| && !IsEmpty(rs[k])
    requires forall j :: 0 <= j < |rs| && j != k ==> IsEmpty(rs[j])
    ensures IsBest(rs, preferred, k)
  {
    if Size(rs[k]) >= preferred {
      assert Reaches(rs, preferred);
    }
  }

  /** A blob of exactly two words holds at most an empty record, so it yields no icon. */
  lemma TwoWordBlobHasNoIcon(blob: seq<Word>)
    requires |blob| == 2
    ensures AllEmpty(Scan(blob, 0))
  {
    if Fits(blob, 0) {
      var r := HeaderAt(blob, 0);
      assert PixelCount(r) == 0;
      assert Scan(blob, Next(r)) == [];
    }
  }

  /** A square record of side `side` at word offset `offset`. */
  function Square(offset: nat, side: Word): Record {
    Record(offset, side, side)
  }

  /** Sizes 16, 32, 48 and 128 with 48 preferred: the exact match is chosen. */
  lemma ExampleExactMatch()
    ensures var rs := [Square(0, 16), Square(258, 32), Square(1284, 48), Square(3590, 128)];
            forall k: nat :: IsBest(rs, 48, k) <==> k == 2
  {
    var rs := [Square(0, 16), Square(258, 32), Square(1284, 48), Square(3590, 128)];
    assert Reaches(rs, 48) by { assert !IsEmpty(rs[2]) && Size(rs[2]) >= 48; }
    assert IsBest(rs, 48, 2);
    forall k: nat | IsBest(rs, 48, k) ensures k == 2 {
      BestIsUnique(rs, 48, k, 2);
    }
  }

  /** Sizes 16, 32 and 64 with 40 preferred: the smallest size above it, 64, not the closer 32. */
  lemma ExampleNearestLarger()
    ensures var rs := [Square(0, 16), Square(258, 32), Square(1284, 64)];
            forall k: nat :: IsBest(rs, 40, k) <==> k == 2
  {
    var rs := [Square(0, 16), Square(258, 32), Square(1284, 64)];
    assert Reaches(rs, 40) by { assert !IsEmpty(rs[2]) && Size(rs[2]) >= 40; }
    assert IsBest(rs, 40, 2);
    forall k: nat | IsBest(rs, 40, k) ensures k == 2 {
      BestIsUnique(rs, 40, k, 2);
    }
  }

  /** Sizes 16, 32 and 64 with 200 preferred: none reaches it, so the largest. */
  lemma ExampleLargestBelow()
    ensures var rs := [Square(0, 16), Square(258, 32), Square(1284, 64)];
            forall k: nat :: IsBest(rs, 200, k) <==> k == 2
  {
    var rs := [Square(0, 16), Square(258, 32), Square(1284, 64)];
    assert !Reaches(rs, 200);
    assert IsBest(rs, 200, 2);
    forall k: nat | IsBest(rs, 200, k) ensures k == 2 {
      BestIsUnique(rs, 200, k, 2);
    }
  }

  /**
   * The source's rule for replacing the current choice, of size `foundSize`
   * (0 while nothing is chosen), by a non-empty record of size `size`: grow
   * toward the preference while too small, shrink toward it (without going
   * under) while too large.
   */
  predicate Improves(foundSize: nat, size: nat, preferred: nat) {
    var foundTooSmall := foundSize < preferred;
    var foundTooLarge := foundSize > preferred;
    var betterBecauseBigger := foundTooSmall && size > foundSize;
    var betterBecauseSmaller := foundTooLarge && size >= preferred && size < foundSize;
    betterBecauseBigger || betterBecauseSmaller || foundSize == 0
  }

  /**
   * One step of the scan keeps the choice correct: if `found` is the choice
   * among `rs` (or nothing, when all of `rs` is empty), then applying the
   * replacement rule to the next record `r` gives the choice among `rs + [r]`.
   */
  lemma {:induction false} ImprovesKeepsBest(rs: seq<Record>, preferred: nat, found: Option<nat>, r: Record)
    requires found.None? ==> AllEmpty(rs)
    requires found.Some? ==> IsBest(rs, preferred, found.value)
    ensures var foundSize := if found.Some? then Size(rs[found.value]) else 0;
            if !IsEmpty(r) && Improves(foundSize, Size(r), preferred)
            then IsBest(rs + [r], preferred, |rs|)
            else (found.None? && AllEmpty(rs + [r])) || (found.Some? && IsBest(rs + [r], preferred, found.value))
  {
    var rs' := rs + [r];
    var n := |rs|;
    assert rs'[n] == r;
    assert forall j :: 0 <= j < n ==> rs'[j] == rs[j];
    if found.None? {
      if !IsEmpty(r) {
        assert Size(r) > 0;
        assert forall j :: 0 <= j < n ==> IsEmpty(rs'[j]);
        if Size(r) >= preferred {
          assert Reaches(rs', preferred);
        } else {
          assert !Reaches(rs', preferred);
        }
        assert IsBest(rs', preferred, n);
      }
    } else {
      var k := found.value;
      var f := Size(rs[k]);
      assert f > 0;
      assert rs'[k] == rs[k];
      var s := Size(r);
      if Reaches(rs, preferred) {
        assert Reaches(rs', preferred) by {
          var j :| 0 <= j < n && !IsEmpty(rs[j]) && Size(rs[j]) >= preferred;
          assert rs'[j] == rs[j];
        }
        assert f >= preferred;
        if !IsEmpty(r) && Improves(f, s, preferred) {
          assert preferred <= s < f;
          assert IsBest(rs', preferred, n);
        } else {
          assert IsBest(rs', preferred, k);
        }
      } else {
        assert f < preferred;
        if !IsEmpty(r) && s >= preferred {
          assert Reaches(rs', preferred);
          assert IsBest(rs', preferred, n);
        } else {
          assert !Reaches(rs', preferred);
          if !IsEmpty(r) && Improves(f, s, preferred) {
            assert IsBest(rs', preferred, n);
          } else {
            assert IsBest(rs', preferred, k);
          }
        }
      }
    }
  }

  /**
   * The accumulator of the scan over the records `rs` seen so far: `found`
   * is the chosen record's offset and `foundSize` its size, with size 0
   * standing for "nothing chosen yet"; nothing is chosen only while every
   * record seen is empty.
   */
  ghost predicate Accumulated(rs: seq<Record>, preferred: nat, found: Option<nat>, foundSize: nat,
                              foundIndex: nat)
  {
    && (found.None? <==> foundSize == 0)
    && (found.None? ==> AllEmpty(rs))
    && (found.Some? ==>
          && IsBest(rs, preferred, foundIndex)
          && rs[foundIndex].offset == found.value
          && foundSize == Size(rs[foundIndex]))
  }

  /** Taking in one more record with the replacement rule keeps the accumulator correct. */
  lemma SelectionStep(rs: seq<Record>, preferred: nat, found: Option<nat>, foundSize: nat,
                      foundIndex: nat, r: Record)
    requires Accumulated(rs, preferred, found, foundSize, foundIndex)
    ensures var chosen := !IsEmpty(r) && Improves(foundSize, Size(r), preferred);
            Accumulated(rs + [r], preferred,
                        if chosen then Some(r.offset) else found,
                        if chosen then Size(r) else foundSize,
                        if chosen then |rs| else foundIndex)
  {
    ImprovesKeepsBest(rs, preferred, if found.Some? then Some(foundIndex) else None, r);
    assert (rs + [r])[|rs|] == r;
    if found.Some? {
      assert (rs + [r])[foundIndex] == rs[foundIndex];
    }
  }

  /** Record `k` of the scan is the one to choose, at word offset `offset`, and fits in the blob. */
  ghost predicate ChosenAt(blob: seq<Word>, preferred: nat, k: nat, offset: nat) {
    var rs := Scan(blob, 0);
    IsBest(rs, preferred, k) && rs[k].offset == offset && RecordIn(blob, rs[k])
  }

  /** A record that fits is visited next, and the scan goes on after its pixels. */
  lemma ScanAdvances(blob: seq<Word>, visited: seq<Record>, o: nat)
    requires Scan(blob, 0) == visited + Scan(blob, o)
    requires Fits(blob, o)
    ensures Scan(blob, 0) == (visited + [HeaderAt(blob, o)]) + Scan(blob, Next(HeaderAt(blob, o)))
  {
    assert Scan(blob, o) == [HeaderAt(blob, o)] + Scan(blob, Next(HeaderAt(blob, o)));
  }

  /** When the scan stops, the accumulator holds the result over every scanned record. */
  lemma ScanFinished(blob: seq<Word>, preferred: nat, visited: seq<Record>, o: nat,
                     found: Option<nat>, foundSize: nat, foundIndex: nat)
    requires Scan(blob, 0) == visited + Scan(blob, o)
    requires !Fits(blob, o)
    requires Accumulated(visited, preferred, found, foundSize, foundIndex)
    ensures found.None? <==> AllEmpty(Scan(blob, 0))
    ensures found.Some? ==> ChosenAt(blob, preferred, foundIndex, found.value)
  {
    assert visited == Scan(blob, 0);
    if found.Some? {
      ScannedRecordIn(blob, 0, foundIndex);
    }
  }

  /**
   * The selection part of `ewmh_window_icon_from_reply`: the word offset of
   * the chosen record, or nothing when the reply is missing or not a list of
   * at least two CARDINAL words, or when every scanned record is empty.
   */
  method SelectIcon(reply: Option<PropertyReply>, preferred: Word) returns (found: Option<nat>)
    ensures !WellFormed(reply) ==> found.None?
    ensures WellFormed(reply) ==> (found.None? <==> AllEmpty(Scan(reply.value.value[..], 0)))
    ensures found.Some? ==>
              WellFormed(reply) && exists k: nat :: ChosenAt(reply.value.value[..], preferred, k, found.value)
  {
    if reply.None? || reply.value.propertyType != AtomCardinal || reply.value.format != 32
       || reply.value.value.Length < 2
    {
      return None;
    }
    var value := reply.value.value;
    ghost var blob := value[..];
    var end := value.Length;
    var data: nat := 0;
    var foundData: Option<nat> := None;
    var foundSize: Word := 0;
    ghost var visited: seq<Record> := [];
    ghost var foundIndex: nat := 0;

    while data + 1 < end
      invariant data <= end
      invariant Scan(blob, 0) == visited + Scan(blob, data)
      invariant Accumulated(visited, preferred, foundData, foundSize, foundIndex)
      decreases end - data
    {
      var width, height := value[data], value[data + 1];
      ghost var r := HeaderAt(blob, data);
      assert r == Record(data, width, height);
      // Both factors are below 2^32, so the 64-bit product never wraps.
      var dataSize := width as int * height as int;
      if dataSize > end - data - 2 {
        break;
      }
      var size := Max(width, height);
      var foundIconTooSmall := foundSize < preferred;
      var foundIconTooLarge := foundSize > preferred;
      var iconEmpty := width == 0 || height == 0;
      var betterBecauseBigger := foundIconTooSmall && size > foundSize;
      var betterBecauseSmaller := foundIconTooLarge && size >= preferred && size < foundSize;
      var chosen := !iconEmpty && (betterBecauseBigger || betterBecauseSmaller || foundSize == 0);

      ScanAdvances(blob, visited, data);
      SelectionStep(visited, preferred, foundData, foundSize, foundIndex, r);
      assert chosen == (!IsEmpty(r) && Improves(foundSize, Size(r), preferred));
      if chosen {
        foundData := Some(data);
        foundSize := size;
        foundIndex := |visited|;
      }
      visited := visited + [r];
      data := data + dataSize + 2;
    }
    ScanFinished(blob, preferred, visited, data, foundData, foundSize, foundIndex);
    assert blob == reply.value.value[..];
    assert WellFormed(reply);
    found := foundData;
  }

  /**
   * The surface (`width`, `height`, `data`) delivers record `k` of the scan:
   * the best record for `preferred`, lying inside the blob, with its pixels
   * premultiplied.
   */
  ghost predicate Delivers(blob: seq<Word>, preferred: nat, scale: (Byte, Byte) -> Byte, k: nat,
                           width: nat, height: nat, data: seq<Word>)
  {
    var rs := Scan(blob, 0);
    && IsBest(rs, preferred, k)
    && RecordIn(blob, rs[k])
    && width == rs[k].width && height == rs[k].height
    && data == PremultiplyAll(blob[rs[k].offset + 2..Next(rs[k])], scale)
  }

  /** The premultiplied pixels of the chosen record, with its header, are what `Delivers` asks for. */
  lemma DeliversChosen(blob: seq<Word>, preferred: nat, scale: (Byte, Byte) -> Byte, k: nat, o: nat,
                       width: Word, height: Word, data: seq<Word>)
    requires ChosenAt(blob, preferred, k, o)
    requires o + 1 < |blob| && width == blob[o] && height == blob[o + 1]
    requires o + 2 + width as int * height as int <= |blob|
    requires data == PremultiplyAll(blob[o + 2..o + 2 + width as int * height as int], scale)
    ensures Delivers(blob, preferred, scale, k, width as int, height as int, data)
  {
  }

  /**
   * `ewmh_window_icon_from_reply` as a whole: select a record, then hand its
   * dimensions and its pixels (the words after its header) to the converter.
   * The source passes the dimensions as C `int`s and multiplies them in an
   * `int`, so the property value is required to hold fewer than 2^31 words.
   */
  method IconFromReply(reply: Option<PropertyReply>, preferred: Word, scale: (Byte, Byte) -> Byte)
    returns (surface: Option<Surface>)
    requires reply.Some? ==> reply.value.value.Length < 0x8000_0000
    ensures surface.None? <==> !WellFormed(reply) || AllEmpty(Scan(reply.value.value[..], 0))
    ensures surface.Some? ==> fresh(surface.value.data)
    ensures surface.Some? ==>
              WellFormed(reply) && exists k: nat :: Delivers(reply.value.value[..], preferred, scale, k, surface.value.width,
                                        surface.value.height, surface.value.data[..])
  {
    var found := SelectIcon(reply, preferred);
    if found.None? {
      return None;
    }
    var value := reply.value.value;
    ghost var blob := value[..];
    ghost var k: nat :| ChosenAt(blob, preferred, k, found.value);
    var o := found.value;
    var width, height := value[o], value[o + 1];
    var buffer := Premultiply(width, height, value, o + 2, scale);
    surface := Some(Surface(width, height, buffer));
    assert blob == value[..];
    DeliversChosen(blob, preferred, scale, k, o, width, height, buffer[..]);
  }
}
