/**
 DataList (src/core/data_list.h): a list of typed values kept in a pool of slots that grows by eight.
 Slots past the used count are untyped; without that a value would be dropped silently, since a slot
 refuses a value of another type than its own.
 */
module DataLists {
  import opened Bytes
  import opened RecordGrid
  import opened Splitting
  import opened Wrappers

  const STACK_SIZE := 8

  /** A SquickData used as a slot: None is TDATA_UNKNOWN. */
  class Slot {
    var data: Option<Value>

    constructor ()
      ensures data == None
    {
      data := None;
    }

    /** SetInt, SetString, SetObject: ignored by a slot that has another type. */
    method Set(v: Value)
      modifies this
      ensures data == if old(data).None? || KindOf(old(data).value) == KindOf(v) then Some(v) else old(data)
    {
      if data.None? || KindOf(data.value) == KindOf(v) {
        data := Some(v);
      }
    }

    method Reset()
      modifies this
      ensures data == None
    {
      data := None;
    }
  }

  class DataList {
    var useSize: nat
    var list: seq<Slot>
    ghost var pool: set<Slot>

    ghost predicate Valid()
      reads this, pool
    {
      && (forall i :: 0 <= i < |list| ==> list[i] in pool)
      && STACK_SIZE <= |list| && useSize <= |list|
      && (forall i, j :: 0 <= i < j < |list| ==> list[i] != list[j])
      && (forall i :: 0 <= i < useSize ==> list[i].data.Some?)
      && (forall i :: useSize <= i < |list| ==> list[i].data.None?)
    }

    ghost function Contents(): Tuple
      requires Valid()
      reads this, pool
    {
      seq(useSize, i requires Valid() && 0 <= i < useSize reads this, pool => list[i].data.value)
    }

    constructor ()
      ensures Valid() && Contents() == [] && fresh(pool)
    {
      useSize, list, pool := 0, [], {};
      new;
      AddStack();
    }

    /** AddStatck: eight more untyped slots. */
    method AddStack()
      requires forall i :: 0 <= i < |list| ==> list[i] in pool
      requires forall i, j :: 0 <= i < j < |list| ==> list[i] != list[j]
      modifies `list, `pool
      ensures fresh(pool - old(pool)) && old(pool) <= pool && forall i :: 0 <= i < |list| ==> list[i] in pool
      ensures |list| == old(|list|) + STACK_SIZE && list[..old(|list|)] == old(list)
      ensures forall i :: old(|list|) <= i < |list| ==> fresh(list[i]) && list[i].data.None?
      ensures forall i, j :: 0 <= i < j < |list| ==> list[i] != list[j]
    {
      for k := 0 to STACK_SIZE
        invariant fresh(pool - old(pool)) && old(pool) <= pool && forall i :: 0 <= i < |list| ==> list[i] in pool
        invariant |list| == old(|list|) + k && list[..old(|list|)] == old(list)
        invariant forall i :: old(|list|) <= i < |list| ==> fresh(list[i]) && list[i].data.None?
        invariant forall i, j :: 0 <= i < j < |list| ==> list[i] != list[j]
      {
        var s := new Slot();
        list, pool := list + [s], pool + {s};
      }
    }

    method Add(v: Value) returns (ok: bool)
      requires Valid()
      modifies this, pool
      ensures Valid() && ok && fresh(pool - old(pool))
      ensures Contents() == old(Contents()) + [v]
    {
      if useSize == |list| {
        AddStack();
      }
      list[useSize].Set(v);
      useSize := useSize + 1;
      ok := true;
    }

    method Clear()
      requires Valid()
      modifies this, pool
      ensures Valid() && Contents() == [] && fresh(pool - old(pool))
    {
      useSize := 0;
      if |list| > STACK_SIZE {
        list := list[..STACK_SIZE];
      }
      for i := 0 to STACK_SIZE
        invariant |list| == STACK_SIZE && list == old(list)[..STACK_SIZE] && useSize == 0 && pool == old(pool)
        invariant forall k :: 0 <= k < i ==> list[k].data.None?
      {
        list[i].Reset();
      }
    }

    /** Set: only a value of the type the slot already has. */
    method Set(index: int, v: Value) returns (ok: bool)
      requires Valid()
      modifies pool
      ensures Valid()
      ensures ok == (0 <= index < useSize && KindOf(old(Contents())[index]) == KindOf(v))
      ensures Contents() == if ok then old(Contents())[index := v] else old(Contents())
    {
      ok := false;
      if 0 <= index < useSize && KindOf(list[index].data.value) == KindOf(v) {
        list[index].Set(v);
        ok := true;
      }
    }

    /** InnerAppendEx, from another list or from this one. */
    method InnerAppendEx(src: DataList, start: nat, end: nat)
      requires Valid() && src.Valid() && start <= end <= src.useSize
      requires src == this || pool !! src.pool
      modifies this, pool
      ensures Valid() && fresh(pool - old(pool))
      ensures src != this ==> src.Valid() && src.Contents() == old(src.Contents())
      ensures Contents() == old(Contents()) + old(src.Contents())[start..end]
    {
      ghost var before, source := Contents(), src.Contents();
      var i := start;
      while i < end
        invariant start <= i <= end && Valid() && fresh(pool - old(pool))
        invariant src != this ==> src.Valid() && src.useSize == old(src.useSize) && src.Contents() == source
        invariant src != this ==> pool !! src.pool && src.pool == old(src.pool)
        invariant Contents() == before + source[start..i]
      {
        OneMoreOf(before, source, start, i);
        assert src == this ==> Contents()[i] == before[i];
        assert src.Contents()[i] == source[i];
        var ok := Add(src.list[i].data.value);
        i := i + 1;
      }
    }

    /** One turn of the loop of Split, with its increment. */
    method AddPiece(strData: string, strSplit: string, i: nat) returns (next: nat)
      requires Valid() && strSplit != "" && i < |strData|
      modifies this, pool
      ensures Valid() && fresh(pool - old(pool)) && i < next <= |strData|
      ensures Contents() + Strings(Pieces(strData, strSplit, next))
        == old(Contents()) + Strings(Pieces(strData, strSplit, i))
    {
      next := i;
      var pos := Find(strData, strSplit, i);
      if 0 <= pos < |strData| {
        ghost var before := Contents();
        var piece := StringValue(strData[i..pos]);
        var ok := Add(piece);
        OnePiece(before, Contents(), strData, strSplit, i);
        next := pos + |strSplit| - 1;
      } else {
        NoMore(strData, strSplit, i);
      }
      next := next + 1;
    }

    /** Split: the text between separators; with an empty separator its loop would not end. */
    method Split(str: string, strSplit: string)
      requires Valid() && strSplit != ""
      modifies this, pool
      ensures Valid() && fresh(pool - old(pool))
      ensures Contents() == Strings(Splitting.Split(str, strSplit))
    {
      Clear();
      if str == "" {
        return;
      }
      var strData := str + strSplit;
      var size := |strData|;
      var i := 0;
      while i < size
        invariant i <= size && Valid() && fresh(pool - old(pool))
        invariant Contents() + Strings(Pieces(strData, strSplit, i)) == Strings(Pieces(strData, strSplit, 0))
      {
        i := AddPiece(strData, strSplit, i);
      }
      NothingBehind(strData, strSplit);
    }

    /** ToString with a separator, appended to the caller's text; `text` writes one value. */
    method ToString(str: string, strSplit: string, text: Value -> string) returns (r: string)
      requires Valid()
      ensures r == Stripped(str + Glue(Texts(Contents(), text), strSplit), strSplit)
    {
      r := str;
      ghost var texts := Texts(Contents(), text);
      assert texts[0..] == texts;
      for i := 0 to useSize
        invariant r + Glue(texts[i..], strSplit) == str + Glue(texts, strSplit)
      {
        assert text(list[i].data.value) == texts[i];
        GlueNext(r, texts, strSplit, i);
        r := r + text(list[i].data.value) + strSplit;
      }
      assert texts[useSize..] == [] && Glue([], strSplit) == "" && r + "" == r;
      r := Stripped(r, strSplit);
    }
  }

  lemma OneMoreOf(before: Tuple, source: Tuple, start: nat, i: nat)
    requires start <= i < |source|
    ensures before + source[start..i] + [source[i]] == before + source[start..i + 1]
  {
  }

  function Strings(parts: seq<string>): (t: Tuple)
    ensures |t| == |parts|
  {
    seq(|parts|, i requires 0 <= i < |parts| => StringValue(parts[i]))
  }

  function Texts(t: Tuple, text: Value -> string): (parts: seq<string>)
    ensures |parts| == |t|
  {
    seq(|t|, i requires 0 <= i < |t| => text(t[i]))
  }

  /** The end of ToString: a last separator that ends the text is cut off. */
  function Stripped(str: string, sep: string): string {
    if EndsWith(str, sep) then str[..|str| - |sep|] else str
  }

  lemma OnePiece(before: Tuple, after: Tuple, data: string, sep: string, i: nat)
    requires sep != "" && Find(data, sep, i) != -1
    requires after == before + [StringValue(data[i..Find(data, sep, i)])]
    ensures after + Strings(Pieces(data, sep, Find(data, sep, i) + |sep|)) == before + Strings(Pieces(data, sep, i))
  {
    var p := Find(data, sep, i);
    PiecesFrom(data, sep, i, p);
    StringsOfFirst(data[i..p], Pieces(data, sep, p + |sep|));
    AppendAssociative(before, [StringValue(data[i..p])], Strings(Pieces(data, sep, p + |sep|)));
  }

  lemma StringsOfFirst(part: string, parts: seq<string>)
    ensures Strings([part] + parts) == [StringValue(part)] + Strings(parts)
  {
  }

  lemma NoMore(data: string, sep: string, i: nat)
    requires sep != "" && Find(data, sep, i) == -1
    ensures Pieces(data, sep, i) == Pieces(data, sep, i + 1) == []
  {
  }

  lemma NothingBehind(data: string, sep: string)
    requires sep != ""
    ensures Pieces(data, sep, |data|) == []
  {
  }

  lemma GlueNext(r: string, texts: seq<string>, sep: string, i: nat)
    requires i < |texts|
    ensures r + Glue(texts[i..], sep) == r + texts[i] + sep + Glue(texts[i + 1..], sep)
  {
    assert texts[i..][1..] == texts[i + 1..];
    AppendAssociative(r, texts[i] + sep, Glue(texts[i + 1..], sep));
    AppendAssociative(r, texts[i], sep);
  }

  /** Written into an empty text, a list reads as its values with the separator between them. */
  lemma ToStringIsJoin(parts: seq<string>, sep: string)
    requires sep != ""
    ensures Stripped("" + Glue(parts, sep), sep) == Join(parts, sep)
  {
    InEmptyText(Glue(parts, sep));
    StrippedIsJoin(parts, sep);
  }

  lemma InEmptyText(str: string)
    ensures "" + str == str
  {
  }

  lemma StrippedIsJoin(parts: seq<string>, sep: string)
    requires sep != ""
    ensures Stripped(Glue(parts, sep), sep) == Join(parts, sep)
  {
    if parts == [] {
      StrippedShort("", sep);
    } else {
      GlueEnds(parts, sep);
      StrippedOnce(Glue(parts, sep), sep);
    }
  }

  lemma StrippedShort(str: string, sep: string)
    requires |str| < |sep|
    ensures Stripped(str, sep) == str
  {
  }

  lemma StrippedOnce(str: string, sep: string)
    requires EndsWith(str, sep)
    ensures Stripped(str, sep) == str[..|str| - |sep|]
  {
  }

  /** Splitting a text and writing the list out again gives the text back for an unbordered separator. */
  method SplitThenToString(str: string, sep: string) returns (r: string)
    requires sep != "" && Unbordered(sep)
    ensures r == str
  {
    var d := new DataList();
    d.Split(str, sep);
    var text := (v: Value) => if v.StringValue? then v.text else "";
    r := d.ToString("", sep, text);
    var parts := Splitting.Split(str, sep);
    assert Texts(Strings(parts), text) == parts;
    ToStringIsJoin(parts, sep);
    JoinUndoesSplitIff(sep);
  }
}
