/** `LV2Options` (urid/lv2-urid/src/options.rs): a host feature that copies
    the host's options list into one flat byte table, each option stored as an
    atom (size, type, value bytes), and looks options up by key. */
module Lv2Options {
  import opened Bytes
  import opened Wrappers
  import opened Aligned
  import opened Header
  import opened Urid
  import opened Options

  /** The flat table: each key's `(start, end)` in `data`. */
  datatype LV2Options = LV2Options(sliceMap: map<u32, (nat, nat)>, data: seq<byte>)

  /** Every recorded slice lies inside the table. */
  predicate SlicesFit(t: LV2Options) {
    forall k :: k in t.sliceMap ==> t.sliceMap[k].0 <= t.sliceMap[k].1 <= |t.data|
  }

  /** The host's promise for the entries `new` reads: every value pointer is
      set and covers `size` bytes. */
  predicate CopyableEntries(items: seq<RawOption>) {
    forall i :: 0 <= i < |items| ==> items[i].value.Some? && HostEntry(items[i])
  }

  /** What `new` appends for one option: its size and type as `u32`s, then
      its `size` value bytes, which is the option as an atom. */
  function Record(o: RawOption): (r: seq<byte>)
    requires o.value.Some? && HostEntry(o)
    ensures |r| == HEADER_SIZE + o.size as int
    ensures Decode(r[..HEADER_SIZE]) == AtomHeader(o.size, o.type_)
    ensures r[HEADER_SIZE..] == Data(o).value.bytes
  {
    var h := AtomHeader(o.size, o.type_);
    DecodeEncode(h);
    Encode(h) + Data(o).value.bytes
  }

  /** One step of `new`'s loop: the record is appended and the key points at
      it, replacing any earlier slice for that key. */
  function AppendOption(t: LV2Options, o: RawOption): (t': LV2Options)
    requires SlicesFit(t) && o.value.Some? && HostEntry(o)
    ensures SlicesFit(t')
    ensures t'.data == t.data + Record(o)
    ensures t'.sliceMap == t.sliceMap[o.key := (|t.data|, |t'.data|)]
  {
    var data := t.data + Record(o);
    LV2Options(t.sliceMap[o.key := (|t.data|, |data|)], data)
  }

  /** The loop of `new` over the entries still to copy. */
  function Build(t: LV2Options, items: seq<RawOption>): (t': LV2Options)
    requires SlicesFit(t) && CopyableEntries(items)
    ensures SlicesFit(t')
    ensures t.data <= t'.data
    decreases |items|
  {
    if items == [] then t
    else Build(AppendOption(t, items[0]), items[1..])
  }

  /** `LV2Options::new`: copies every entry of the null-terminated list. */
  function New(list: seq<RawOption>): (t: LV2Options)
    requires CopyableEntries(Entries(list))
    ensures SlicesFit(t)
  {
    Build(LV2Options(map[], []), Entries(list))
  }

  /** `from_feature_ptr`: `None` stands for the panic in the audio threading
      class; elsewhere the list is copied. */
  function FromFeaturePtr(audioClass: bool, list: seq<RawOption>): (r: Option<LV2Options>)
    requires CopyableEntries(Entries(list))
    ensures r.None? <==> audioClass
    ensures r.Some? ==> r.value == New(list)
  {
    if audioClass then None else Some(New(list))
  }

  /** The last entry with a key: the one whose record a key ends up pointing
      at. */
  function LastWithKey(items: seq<RawOption>, key: u32): (r: Option<RawOption>)
    ensures r.Some? ==> r.value in items && r.value.key == key
    ensures r.None? <==> forall i :: 0 <= i < |items| ==> items[i].key != key
  {
    if items == [] then None
    else if items[|items| - 1].key == key then Some(items[|items| - 1])
    else LastWithKey(items[..|items| - 1], key)
  }

  /** `retrieve_option`: the atom bytes of a key's slice, if the key was in
      the list. */
  function RetrieveOption(t: LV2Options, key: Urid): (r: Option<seq<byte>>)
    requires SlicesFit(t)
    ensures r.Some? <==> key as u32 in t.sliceMap
    ensures r.Some? ==> r.value == t.data[t.sliceMap[key as u32].0..t.sliceMap[key as u32].1]
  {
    if key as u32 in t.sliceMap then
      var (start, end) := t.sliceMap[key as u32];
      Some(t.data[start..end])
    else None
  }

  /** What a table built from `items` on top of `t` answers for a key: the
      record of the last entry with that key, or what `t` answered. */
  lemma {:induction false} BuildLookup(t: LV2Options, items: seq<RawOption>, key: u32)
    requires SlicesFit(t) && CopyableEntries(items)
    ensures var t' := Build(t, items);
            var last := LastWithKey(items, key);
            (key in t'.sliceMap <==> key in t.sliceMap || last.Some?) &&
            (last.Some? ==> t'.data[t'.sliceMap[key].0..t'.sliceMap[key].1] == Record(last.value)) &&
            (last.None? && key in t.sliceMap ==> t'.sliceMap[key] == t.sliceMap[key])
    decreases |items|
  {
    if items != [] {
      var t1 := AppendOption(t, items[0]);
      BuildLookup(t1, items[1..], key);
      LastWithKeyFront(items, key);
      var t' := Build(t, items);
      if LastWithKey(items[1..], key).None? && items[0].key == key {
        assert t1.data[|t.data|..|t1.data|] == Record(items[0]);
        assert t1.data <= t'.data;
        assert t'.data[|t.data|..|t1.data|] == t1.data[|t.data|..|t1.data|];
      }
    }
  }

  /** The last entry with a key, seen from the front of the list. */
  lemma {:induction false} LastWithKeyFront(items: seq<RawOption>, key: u32)
    requires items != []
    ensures LastWithKey(items[1..], key).Some? ==> LastWithKey(items, key) == LastWithKey(items[1..], key)
    ensures LastWithKey(items[1..], key).None? ==>
              LastWithKey(items, key) == (if items[0].key == key then Some(items[0]) else None)
    decreases |items|
  {
    if |items| > 1 {
      var n := |items| - 1;
      assert items[1..][..|items[1..]| - 1] == items[..n][1..];
      if items[n].key != key {
        LastWithKeyFront(items[..n], key);
      }
    } else {
      assert items[..0] == [];
    }
  }

  /** Every option of the list is retrieved as an atom whose header holds its
      size and type and whose body is its value; for a key listed twice, the
      later entry wins; a key not listed is not found. */
  lemma {:induction false} RetrieveNew(list: seq<RawOption>, key: Urid)
    requires CopyableEntries(Entries(list))
    ensures var r := RetrieveOption(New(list), key);
            var last := LastWithKey(Entries(list), key as u32);
            (r.Some? <==> last.Some?) &&
            (r.Some? ==> r.value == Record(last.value) &&
                         Decode(r.value[..HEADER_SIZE]) == AtomHeader(last.value.size, last.value.type_) &&
                         r.value[HEADER_SIZE..] == Data(last.value).value.bytes)
  {
    BuildLookup(LV2Options(map[], []), Entries(list), key as u32);
  }
}
