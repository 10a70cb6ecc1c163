/** The iterator over a message's packed field descriptors. */
module Iteration {
  import opened Bits
  import opened Descriptor

  /** One field as the generator sees it: its attributes, the parts of its type code, and the
      chosen format */
  datatype Entry = Entry(info: FieldInfo, ltype: nat, htype: nat, atype: nat, width: Width)

  /** pb_msgdesc_t, without addresses */
  datatype MsgDescriptor = MsgDescriptor(
    fieldInfo: seq<nat>, fieldCount: nat, requiredFieldCount: nat, largestTag: nat)

  function FieldInfoWords(es: seq<Entry>): seq<nat> {
    if es == [] then []
    else FieldInfoWords(es[..|es| - 1]) + Pack(es[|es| - 1].width, es[|es| - 1].info)
  }

  // Prefix sums over the fields before the i-th

  function RequiredBefore(es: seq<Entry>, i: nat): (r: nat)
    requires i <= |es|
    ensures r <= i
  {
    if i == 0 then 0
    else RequiredBefore(es, i - 1) + (if es[i - 1].htype == HTYPE_REQUIRED then 1 else 0)
  }

  /** PB_BIND */
  function Bind(es: seq<Entry>): MsgDescriptor {
    MsgDescriptor(FieldInfoWords(es) + [0], |es|, RequiredBefore(es, |es|),
                  if es == [] then 0 else es[|es| - 1].info.tag)
  }

  /** PB_LTYPE_IS_SUBMSG */
  predicate IsSubmsg(ltype: nat) {
    ltype == LTYPE_SUBMESSAGE || ltype == LTYPE_SUBMSG_W_CB
  }

  function WordsBefore(es: seq<Entry>, i: nat): nat
    requires i <= |es|
  {
    if i == 0 then 0 else WordsBefore(es, i - 1) + Words(es[i - 1].width)
  }

  function SubmsgsBefore(es: seq<Entry>, i: nat): (r: nat)
    requires i <= |es|
    ensures r <= i
  {
    if i == 0 then 0 else SubmsgsBefore(es, i - 1) + (if IsSubmsg(es[i - 1].ltype) then 1 else 0)
  }

  ghost predicate ValidEntry(e: Entry) {
    && e.info.tag > 0 && InFormat(e.width, e.info)
    && e.ltype < 0x10 && e.htype < 4 && e.atype < 4 && e.info.code == TypeCode(e.ltype, e.htype, e.atype)
  }

  ghost predicate ValidEntryAt(es: seq<Entry>, i: nat)
    requires i < |es|
  {
    ValidEntry(es[i])
  }

  /** The table can be packed, and its indexes fit 16 bits. */
  ghost predicate ValidEntries(es: seq<Entry>) {
    && |es| < 0xFFFF
    && WordsBefore(es, |es|) < 0x1_0000
    && (forall i :: 0 <= i < |es| ==> ValidEntryAt(es, i))
  }

  /** Fields are in strict order of their tags. */
  predicate InTagOrder(es: seq<Entry>) {
    forall i, j :: 0 <= i < j < |es| ==> es[i].info.tag < es[j].info.tag
  }

  lemma {:induction false} WordsBeforeMono(es: seq<Entry>, i: nat, j: nat)
    requires i <= j <= |es|
    ensures WordsBefore(es, i) + (j - i) <= WordsBefore(es, j)
  {
    if i < j { WordsBeforeMono(es, i, j - 1); }
  }

  lemma {:induction false} WordsBeforePrefix(es: seq<Entry>, e: Entry, i: nat)
    requires i <= |es|
    ensures WordsBefore(es + [e], i) == WordsBefore(es, i)
  {
    if i > 0 { WordsBeforePrefix(es, e, i - 1); }
  }

  /** The words p stand in t from word index at on. */
  predicate StandsAt(t: seq<nat>, at: nat, p: seq<nat>) {
    at + |p| <= |t| && t[at..at + |p|] == p
  }

  lemma StandsAtExtend(t: seq<nat>, u: seq<nat>, at: nat, p: seq<nat>)
    requires StandsAt(t, at, p)
    ensures StandsAt(t + u, at, p)
  {
    assert (t + u)[at..at + |p|] == t[at..at + |p|];
  }

  lemma {:induction false} TableLength(es: seq<Entry>)
    ensures |FieldInfoWords(es)| == WordsBefore(es, |es|)
  {
    if es != [] {
      var front, last := es[..|es| - 1], es[|es| - 1];
      TableLength(front);
      assert es == front + [last];
      WordsBeforePrefix(front, last, |front|);
    }
  }

  lemma StandsAtEnd(t: seq<nat>, p: seq<nat>)
    ensures StandsAt(t + p, |t|, p)
  {
  }

  /** The descriptor of field i stands at its prefix sum in the table. */
  lemma {:induction false} TableAt(es: seq<Entry>, i: nat)
    requires i < |es|
    ensures StandsAt(FieldInfoWords(es), WordsBefore(es, i), Pack(es[i].width, es[i].info))
  {
    var n := |es| - 1;
    var front, last := es[..n], es[n];
    assert es == front + [last];
    WordsBeforePrefix(front, last, i);
    var at, p := WordsBefore(es, i), Pack(last.width, last.info);
    if i < n {
      TableAt(front, i);
      StandsAtExtend(FieldInfoWords(front), p, at, Pack(es[i].width, es[i].info));
    } else {
      TableLength(front);
      StandsAtEnd(FieldInfoWords(front), p);
    }
  }

  lemma LoadPrefix(t: seq<nat>, at: nat, p: seq<nat>)
    requires 1 <= |p| && StandsAt(t, at, p) && |p| >= LengthOf(p[0])
    ensures t[at] == p[0] && at + LengthOf(t[at]) <= |t| && Load(t, at) == Load(p, 0)
  {
    var u := t[at..at + |p|];
    assert u[0] == t[at];
    LengthCases(p[0]);
    var b := And(p[0], 3);
    if b >= 1 { assert u[1] == t[at + 1]; }
    if b >= 2 { assert u[2] == t[at + 2] && u[3] == t[at + 3]; }
    if b >= 3 { assert u[4] == t[at + 4]; }
  }

  lemma FourFirst(f: FieldInfo)
    requires f.code < 0x100 && f.arraySize < 0x1_0000
    ensures CodeOf(PackFourFirst(f)) == f.code && LowTag(PackFourFirst(f)) == f.tag % 0x40
  {
    HeadValue(Four, f);
    Masked16(f.arraySize);
    Above16(Head(Four, f), f.arraySize);
    HeadParts(PackFourFirst(f), Four, f, f.arraySize);
  }

  lemma LowTagOf(tag: nat)
    ensures And(tag, 0x3F) == tag % 0x40
  {
    Powers();
    LowMaskOfSum(tag % 0x40, tag / 0x40, 6);
  }

  lemma FirstWordParts(w: Width, f: FieldInfo)
    requires InFormat(w, f)
    ensures CodeOf(Pack(w, f)[0]) == f.code
    ensures LowTag(Pack(w, f)[0]) == And(f.tag, 0x3F)
  {
    LowTagOf(f.tag);
    match w
    case One =>
      OneWord(f);
      HeadParts(PackOne(f), One, f, f.dataOffset + 0x100 * f.sizeOffset + 0x1000 * f.dataSize);
    case Two =>
      TwoWords(f);
      HeadParts(PackTwoFirst(f), Two, f, f.arraySize + 0x1000 * f.sizeOffset);
    case Four => FourFirst(f);
    case Eight => HeadParts(Head(Eight, f), Eight, f, 0);
  }

  /** Reading the bound table at the prefix sum of field i recovers field i. */
  lemma LoadAt(es: seq<Entry>, i: nat)
    requires ValidEntries(es) && i < |es|
    ensures var t, at := Bind(es).fieldInfo, WordsBefore(es, i);
            && at < |t|
            && at + LengthOf(t[at]) <= |t|
            && LengthOf(t[at]) == Words(es[i].width)
            && Load(t, at) == es[i].info
            && CodeOf(t[at]) == es[i].info.code
            && LowTag(t[at]) == And(es[i].info.tag, 0x3F)
  {
    var w, info := es[i].width, es[i].info;
    assert ValidEntryAt(es, i);
    TableAt(es, i);
    LoadInvertsPack(w, info);
    StandsAtExtend(FieldInfoWords(es), [0], WordsBefore(es, i), Pack(w, info));
    LoadPrefix(Bind(es).fieldInfo, WordsBefore(es, i), Pack(w, info));
    FirstWordParts(w, info);
  }

  // How advance_iterator moves the sums on, given the first word of the field it leaves

  function NextWord(at: nat, word0: nat): nat {
    (at + LengthOf(word0)) % 0x1_0000
  }

  function NextRequired(required: nat, word0: nat): nat {
    (required + (if And(CodeOf(word0), 0x30) == Shl(HTYPE_REQUIRED, 4) then 1 else 0)) % 0x1_0000
  }

  function NextSubmsg(submsgs: nat, word0: nat): nat {
    (submsgs + (if IsSubmsg(And(CodeOf(word0), 0x0F)) then 1 else 0)) % 0x1_0000
  }

  /** What the masks make of a type code */
  lemma RuleOfCode(e: Entry)
    requires ValidEntry(e)
    ensures And(e.info.code, 0x30) == Shl(HTYPE_REQUIRED, 4) <==> e.htype == HTYPE_REQUIRED
    ensures And(e.info.code, 0x0F) == e.ltype
  {
    TypeMasks(e.ltype, e.htype, e.atype);
    ShlIsTimes(e.htype, 4);
  }

  lemma SmallSum(x: nat)
    requires x < 0x1_0000
    ensures x % 0x1_0000 == x
  {
  }

  lemma RequiredSum(es: seq<Entry>, i: nat, w: nat)
    requires i < |es| < 0xFFFF && ValidEntry(es[i]) && CodeOf(w) == es[i].info.code
    ensures NextRequired(RequiredBefore(es, i), w) == RequiredBefore(es, i + 1)
  {
    var before, after := RequiredBefore(es, i), RequiredBefore(es, i + 1);
    SmallSum(after);
    assert And(CodeOf(w), 0x30) == Shl(HTYPE_REQUIRED, 4) <==> es[i].htype == HTYPE_REQUIRED by { RuleOfCode(es[i]); }
  }

  lemma SubmsgSum(es: seq<Entry>, i: nat, w: nat)
    requires i < |es| < 0xFFFF && ValidEntry(es[i]) && CodeOf(w) == es[i].info.code
    ensures NextSubmsg(SubmsgsBefore(es, i), w) == SubmsgsBefore(es, i + 1)
  {
    SmallSum(SubmsgsBefore(es, i + 1));
    assert And(CodeOf(w), 0x0F) == es[i].ltype by { RuleOfCode(es[i]); }
  }

  lemma NextSums(es: seq<Entry>, i: nat, w: nat)
    requires i + 1 < |es| < 0xFFFF && WordsBefore(es, i + 1) < 0x1_0000 && ValidEntry(es[i])
    requires LengthOf(w) == Words(es[i].width) && CodeOf(w) == es[i].info.code
    ensures NextWord(WordsBefore(es, i), w) == WordsBefore(es, i + 1)
    ensures NextRequired(RequiredBefore(es, i), w) == RequiredBefore(es, i + 1)
    ensures NextSubmsg(SubmsgsBefore(es, i), w) == SubmsgsBefore(es, i + 1)
  {
    SmallSum(WordsBefore(es, i + 1));
    RequiredSum(es, i, w);
    SubmsgSum(es, i, w);
  }

  /** They take the sums before field i to the sums before field i + 1, in 16 bits. */
  lemma AdvanceSums(es: seq<Entry>, i: nat)
    requires ValidEntries(es) && i + 1 < |es|
    ensures WordsBefore(es, i) < |Bind(es).fieldInfo|
    ensures var w := Bind(es).fieldInfo[WordsBefore(es, i)];
            && NextWord(WordsBefore(es, i), w) == WordsBefore(es, i + 1)
            && NextRequired(RequiredBefore(es, i), w) == RequiredBefore(es, i + 1)
            && NextSubmsg(SubmsgsBefore(es, i), w) == SubmsgsBefore(es, i + 1)
  {
    LoadAt(es, i);
    WordsBeforeMono(es, i + 1, |es|);
    assert ValidEntryAt(es, i);
    NextSums(es, i, Bind(es).fieldInfo[WordsBefore(es, i)]);
  }

  //
  // Searching
  //

  predicate IsExtension(e: Entry) {
    e.ltype == LTYPE_EXTENSION
  }

  /** The plain linear search: the first ordinary field with the tag */
  function LinearSearch(es: seq<Entry>, tag: nat): (r: int)
    ensures -1 <= r < |es|
    ensures r >= 0 ==> es[r].info.tag == tag && !IsExtension(es[r])
    ensures r < 0 ==> forall i :: 0 <= i < |es| ==> es[i].info.tag != tag || IsExtension(es[i])
  {
    if es == [] then -1
    else if es[0].info.tag == tag && !IsExtension(es[0]) then 0
    else
      var r := LinearSearch(es[1..], tag);
      assert forall i :: 1 <= i < |es| ==> es[i] == es[1..][i - 1];
      if r < 0 then -1 else r + 1
  }

  /** The search that began after start, or at the first field after a jump, and now stands
      at index, has passed field i. */
  predicate Visited(start: nat, jump: bool, index: nat, i: nat) {
    if jump then i <= index else if index > start then start < i <= index else start < i || i <= index
  }

  /** Field i is not an ordinary field with the tag. */
  predicate Misses(es: seq<Entry>, tag: nat, i: nat)
    requires i < |es|
  {
    es[i].info.tag != tag || IsExtension(es[i])
  }

  predicate Passed(es: seq<Entry>, tag: nat, start: nat, jump: bool, index: nat) {
    forall i :: 0 <= i < |es| && Visited(start, jump, index, i) ==> Misses(es, tag, i)
  }

  /** How far a search still is from start */
  function Ahead(n: nat, start: nat, jump: bool, index: nat): int {
    if jump || index <= start then start - index else start + n - index
  }

  lemma PassedFirst(es: seq<Entry>, tag: nat, start: nat, jump: bool, i: nat)
    requires start < |es| && i == (if !jump && start + 1 < |es| then start + 1 else 0)
    requires Misses(es, tag, i)
    ensures Passed(es, tag, start, jump, i)
  {
  }

  lemma PassedNext(es: seq<Entry>, tag: nat, start: nat, jump: bool, i: nat)
    requires start < |es| && i < |es| && i != start && (jump ==> i < start)
    requires Passed(es, tag, start, jump, i)
    requires Misses(es, tag, if i + 1 < |es| then i + 1 else 0)
    ensures Passed(es, tag, start, jump, if i + 1 < |es| then i + 1 else 0)
  {
  }

  predicate PassedExtensions(es: seq<Entry>, start: nat, index: nat) {
    forall i :: 0 <= i < |es| && Visited(start, false, index, i) ==> !IsExtension(es[i])
  }

  lemma BeyondLargest(es: seq<Entry>, tag: nat)
    requires InTagOrder(es) && tag > Bind(es).largestTag
    ensures forall i :: 0 <= i < |es| ==> es[i].info.tag != tag
    ensures LinearSearch(es, tag) < 0
  {
    assert es != [] ==> forall i :: 0 <= i < |es| - 1 ==> es[i].info.tag < es[|es| - 1].info.tag;
  }

  lemma ExtensionMask(e: Entry)
    requires ValidEntry(e)
    ensures And(e.info.code, 0x0F) == LTYPE_EXTENSION <==> IsExtension(e)
  {
    TypeMasks(e.ltype, e.htype, e.atype);
  }

  lemma ZeroMask()
    ensures And(0, 0x0F) == 0 && CodeOf(0) == 0
  {
    ZeroBits(8);
  }

  /** The type in the packed word at the current position; the table of an empty message is a
      single zero word. */
  lemma CodeHere(es: seq<Entry>, i: nat)
    requires ValidEntries(es) && (es == [] ==> i == 0) && (es != [] ==> i < |es|)
    ensures WordsBefore(es, i) < |Bind(es).fieldInfo|
    ensures And(CodeOf(Bind(es).fieldInfo[WordsBefore(es, i)]), 0x0F) == LTYPE_EXTENSION
            <==> es != [] && IsExtension(es[i])
  {
    if es == [] {
      assert Bind(es).fieldInfo == [0];
      ZeroMask();
    } else {
      LoadAt(es, i);
      assert ValidEntryAt(es, i);
      ExtensionMask(es[i]);
    }
  }

  /** Back at start, all fields that can carry the tag have been passed: after a jump the rest
      have larger tags. */
  lemma MissesEverywhere(es: seq<Entry>, start: nat, tag: nat)
    requires InTagOrder(es) && start < |es| && es[start].info.tag != tag
    requires Passed(es, tag, start, tag < es[start].info.tag, start)
    ensures LinearSearch(es, tag) < 0
  {
    forall i | 0 <= i < |es| ensures Misses(es, tag, i) { }
    var r := LinearSearch(es, tag);
    assert r >= 0 ==> Misses(es, tag, r);
  }

  class FieldIter {
    const descriptor: MsgDescriptor
    ghost const entries: seq<Entry>

    // Position, and the sums that belong to it
    var index: nat
    var fieldInfoIndex: nat
    var requiredFieldIndex: nat
    var submessageIndex: nat

    // Attributes of the current field
    var tag: nat
    var dataSize: nat
    var arraySize: nat
    var code: nat

    /** The descriptor is what the generator built from the entries. */
    ghost predicate Bound() {
      ValidEntries(entries) && descriptor == Bind(entries)
    }

    /** The indexes agree: each is the sum over the fields before the current one. An empty
        message stays at index 0. */
    ghost predicate Positioned()
      reads this
    {
      && Bound()
      && (entries == [] ==> index == 0)
      && (entries != [] ==> index < |entries|)
      && fieldInfoIndex == WordsBefore(entries, index)
      && requiredFieldIndex == RequiredBefore(entries, index)
      && submessageIndex == SubmsgsBefore(entries, index)
    }

    /** The attributes are those of the field at index. */
    ghost predicate Loaded()
      reads this
    {
      && Positioned()
      && (entries == [] ==> tag == 0 && code == 0)
      && (entries != [] ==>
            && tag == entries[index].info.tag
            && code == entries[index].info.code
            && dataSize == entries[index].info.dataSize
            && arraySize == entries[index].info.arraySize)
    }

    /** load_descriptor_values */
    method LoadDescriptorValues() returns (ok: bool)
      requires Positioned() && (entries == [] ==> tag == 0 && code == 0)
      modifies this`tag, this`code, this`dataSize, this`arraySize
      ensures Loaded() && ok == (entries != [])
    {
      if index >= descriptor.fieldCount { return false; }
      LoadAt(entries, index);
      var info := Load(descriptor.fieldInfo, fieldInfoIndex);
      tag, code, dataSize, arraySize := info.tag, info.code, info.dataSize, info.arraySize;
      return true;
    }

    /** advance_iterator; the index may stand past the end to force a restart */
    method Advance()
      requires Positioned() || (Bound() && entries != [] && index == descriptor.fieldCount)
      modifies this`index, this`fieldInfoIndex, this`requiredFieldIndex, this`submessageIndex
      ensures Positioned()
      ensures index == if old(index) + 1 < |entries| then old(index) + 1 else 0
    {
      SmallSum(index + 1);
      index := (index + 1) % 0x1_0000;
      if index >= descriptor.fieldCount {
        index, fieldInfoIndex, submessageIndex, requiredFieldIndex := 0, 0, 0, 0;
      } else {
        AddToSums();
      }
    }

    /** The sums that belong to the field before, with that field added */
    method AddToSums()
      requires Bound() && 0 < index < |entries| && fieldInfoIndex == WordsBefore(entries, index - 1)
      requires requiredFieldIndex == RequiredBefore(entries, index - 1)
      requires submessageIndex == SubmsgsBefore(entries, index - 1)
      modifies this`fieldInfoIndex, this`requiredFieldIndex, this`submessageIndex
      ensures Positioned()
    {
      AdvanceSums(entries, index - 1);
      var prev := descriptor.fieldInfo[fieldInfoIndex];
      fieldInfoIndex, requiredFieldIndex, submessageIndex :=
        NextWord(fieldInfoIndex, prev), NextRequired(requiredFieldIndex, prev), NextSubmsg(submessageIndex, prev);
    }

    /** pb_field_iter_begin */
    constructor Begin(descriptor: MsgDescriptor, ghost entries: seq<Entry>)
      requires ValidEntries(entries) && descriptor == Bind(entries)
      ensures this.descriptor == descriptor && this.entries == entries
      ensures Loaded() && index == 0
    {
      this.descriptor := descriptor;
      this.entries := entries;
      index, fieldInfoIndex, requiredFieldIndex, submessageIndex := 0, 0, 0, 0;
      tag, dataSize, arraySize, code := 0, 0, 0, 0;
      new;
      var _ := LoadDescriptorValues();
    }

    /** pb_field_iter_next: the following field, round the circle; false exactly on wrapping */
    method Next() returns (more: bool)
      requires Loaded()
      modifies this
      ensures Loaded()
      ensures index == if old(index) + 1 < |entries| then old(index) + 1 else 0
      ensures more == (old(index) + 1 < |entries|)
    {
      Advance();
      var _ := LoadDescriptorValues();
      more := index != 0;
    }

    /** The loop body of pb_field_iter_find after advancing: the test of six tag bits, and
        the full comparison for a candidate */
    method Candidate(wanted: nat) returns (hit: bool)
      requires Positioned() && entries != []
      modifies this`tag, this`code, this`dataSize, this`arraySize
      ensures Positioned() && (hit ==> Loaded())
      ensures hit == !Misses(entries, wanted, index)
    {
      LoadAt(entries, index);
      var fieldInfo := descriptor.fieldInfo[fieldInfoIndex];
      hit := false;
      if LowTag(fieldInfo) == And(wanted, 0x3F) {
        var _ := LoadDescriptorValues();
        assert ValidEntryAt(entries, index);
        ExtensionMask(entries[index]);
        hit := tag == wanted && And(code, 0x0F) != LTYPE_EXTENSION;
      }
    }

    /** pb_field_iter_find: the outcome of the linear search from any start, despite the jump
        by tag order and the test of six tag bits; only an extension field that is already
        current is found by its tag too. */
    method Find(wanted: nat) returns (found: bool)
      requires Loaded() && wanted > 0 && InTagOrder(entries)
      modifies this
      ensures Loaded()
      ensures found == (LinearSearch(entries, wanted) >= 0
                        || (entries != [] && entries[old(index)].info.tag == wanted))
      ensures found ==> entries != [] && entries[index].info.tag == wanted
      ensures !found ==> index == old(index)
    {
      if tag == wanted {
        return true;
      } else if wanted > descriptor.largestTag {
        BeyondLargest(entries, wanted);
        return false;
      }
      var start := index;
      var jump := wanted < tag;
      if jump {
        index := descriptor.fieldCount;
      }
      found := SearchCircle(wanted, start, jump);
      if !found {
        MissesEverywhere(entries, start, wanted);
        var _ := LoadDescriptorValues();
      }
    }

    /** The do-while loop of pb_field_iter_find, from the field after start, or from the first
        one after a jump, until start has been tried */
    method SearchCircle(wanted: nat, start: nat, jump: bool) returns (found: bool)
      requires Bound() && start < |entries|
      requires if jump then index == descriptor.fieldCount else Positioned() && index == start
      modifies this
      ensures Positioned() && (found ==> Loaded() && !Misses(entries, wanted, index))
      ensures !found ==> index == start && Passed(entries, wanted, start, jump, start)
    {
      Advance();
      found := Candidate(wanted);
      if found { return; }
      ghost var n := |entries|;
      PassedFirst(entries, wanted, start, jump, index);
      while index != start
        invariant Positioned() && (jump ==> index <= start)
        invariant Passed(entries, wanted, start, jump, index)
        decreases Ahead(n, start, jump, index)
      {
        ghost var before := index;
        Advance();
        found := Candidate(wanted);
        if found { return; }
        PassedNext(entries, wanted, start, jump, before);
      }
    }

    /** pb_field_iter_find_extension: some extension field, if there is one */
    method FindExtension() returns (found: bool)
      requires Loaded()
      modifies this`index, this`fieldInfoIndex, this`requiredFieldIndex, this`submessageIndex,
               this`tag, this`code, this`dataSize, this`arraySize
      ensures Loaded()
      ensures found == (exists i :: 0 <= i < |entries| && IsExtension(entries[i]))
      ensures found ==> entries != [] && IsExtension(entries[index])
      ensures !found ==> index == old(index)
    {
      if entries != [] {
        assert ValidEntryAt(entries, index);
        ExtensionMask(entries[index]);
      } else {
        ZeroMask();
      }
      if And(code, 0x0F) == LTYPE_EXTENSION {
        assert entries != [] && IsExtension(entries[index]);
        return true;
      }
      if descriptor.fieldCount == 0 {
        // The loop would run once, back to index 0.
        Advance();
        var here := AtExtension();
        var _ := LoadDescriptorValues();
        return false;
      }
      var start := index;
      found := ExtensionCircle(start);
      var _ := LoadDescriptorValues();
    }

    /** The do-while loop of pb_field_iter_find_extension */
    method ExtensionCircle(start: nat) returns (found: bool)
      requires Positioned() && entries != [] && index == start
      modifies this`index, this`fieldInfoIndex, this`requiredFieldIndex, this`submessageIndex
      ensures Positioned()
      ensures found ==> IsExtension(entries[index])
      ensures !found ==> index == start && PassedExtensions(entries, start, start)
    {
      Advance();
      found := AtExtension();
      if found { return; }
      while index != start
        invariant Positioned() && PassedExtensions(entries, start, index)
        decreases if index <= start then start - index else start + |entries| - index
      {
        Advance();
        found := AtExtension();
        if found { return; }
      }
    }

    /** The fast check of pb_field_iter_find_extension */
    method AtExtension() returns (here: bool)
      requires Positioned()
      ensures here == (entries != [] && IsExtension(entries[index]))
    {
      CodeHere(entries, index);
      var fieldInfo := descriptor.fieldInfo[fieldInfoIndex];
      here := And(CodeOf(fieldInfo), 0x0F) == LTYPE_EXTENSION;
    }
  }
}
