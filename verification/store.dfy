/** The identity map from (port, unit) to memory. */
module Stores {
  import opened Words
  import opened Outcomes
  import opened Images
  import opened MemoryCore

  datatype MemoryID = MemoryID(port: u16, unitID: u16) {
    function Validate(): Option<MemError> {
      if port == 0 then Some(EmptyPort)
      else if unitID == 0 then Some(UnitIDZero)
      else None
    }
  }

  /** All memories, as values. */
  type Contents = map<MemoryID, Image>

  /** Every memory is well formed and lives in `cells`, and no two share any heap cell. */
  ghost predicate Separate(data: map<MemoryID, Memory>, cells: set<object>) {
    && (forall id | id in data :: data[id].Valid() && data[id].Repr <= cells)
    && (forall id, other | id in data && other in data && id != other :: data[id].Repr !! data[other].Repr)
  }

  class Store {
    var data: map<MemoryID, Memory>

    /** What the memories hold, and the heap cells they hold it in. */
    ghost var contents: Contents
    ghost var Repr: set<object>

    ghost predicate Valid()
      reads this, Repr
    {
      && this !in Repr
      && Separate(data, Repr)
      && contents.Keys == data.Keys
      && forall id | id in data :: contents[id] == data[id].Abs()
    }

    constructor ()
      ensures Valid() && data == map[] && contents == map[] && Repr == {}
    {
      data, contents, Repr := map[], map[], {};
    }

    /** Registers `mem` under `id`, replacing what was there. */
    method Add(id: MemoryID, mem: Memory?) returns (err: Option<MemError>)
      modifies this
      ensures err.None? <==> id.port != 0 && id.unitID != 0 && mem != null
      ensures err == if id.Validate().Some? then id.Validate() else if mem == null then Some(NilMemory) else None
      ensures data == if err.None? then old(data)[id := mem] else old(data)
      ensures contents == if err.None? then old(contents)[id := mem.Abs()] else old(contents)
      ensures Repr == if err.None? then old(Repr) + mem.Repr else old(Repr)
      ensures old(Valid()) && (err.None? ==> mem.Valid() && mem.Repr !! old(Repr) + {this}) ==> Valid()
    {
      err := id.Validate();
      if err.Some? { return; }
      if mem == null { return Some(NilMemory); }
      hide Store.Valid, Memory.Valid, Memory.Abs;
      data := data[id := mem];
      contents := contents[id := mem.Abs()];
      Repr := Repr + mem.Repr;
      if old(Valid()) && mem.Valid() && mem.Repr !! old(Repr) + {this} {
        Added(this, id, mem);
      }
    }

    method Get(id: MemoryID) returns (mem: Memory?)
      ensures mem == if id in data then data[id] else null
    {
      mem := if id in data then data[id] else null;
    }

    method MustGet(id: MemoryID) returns (r: Result<Memory, MemError>)
      ensures r == if id in data then Ok(data[id]) else Err(UnknownMemoryID)
    {
      var mem := Get(id);
      r := if mem == null then Err(UnknownMemoryID) else Ok(mem);
    }

    /** A bit write to one memory; all others stay as they are. */
    method WriteBits(id: MemoryID, area: byte, address: u16, count: u16, src: seq<byte>) returns (err: Option<MemError>)
      requires Valid() && id in data
      modifies this`contents, Repr
      ensures Valid()
      ensures var r := old(contents)[id].WriteBits(area, address, count, src);
              && err == (if r.Err? then Some(r.error) else None)
              && contents == if r.Ok? then old(contents)[id := r.value] else old(contents)
    {
      hide Store.Valid, Memory.Valid, Memory.Abs, Image.WriteBits;
      Owned(this, id);
      var mem := data[id];
      ghost var was := contents;
      err := mem.WriteBits(area, address, count, src);
      contents := was[id := mem.Abs()];
      StillValid(this, id);
    }

    /** A register write to one memory; all others stay as they are. */
    method WriteRegs(id: MemoryID, area: byte, address: u16, count: u16, src: seq<byte>) returns (err: Option<MemError>)
      requires Valid() && id in data
      modifies this`contents, Repr
      ensures Valid()
      ensures var r := old(contents)[id].WriteRegs(area, address, count, src);
              && err == (if r.Err? then Some(r.error) else None)
              && contents == if r.Ok? then old(contents)[id := r.value] else old(contents)
    {
      hide Store.Valid, Memory.Valid, Memory.Abs, Image.WriteRegs;
      Owned(this, id);
      var mem := data[id];
      ghost var was := contents;
      err := mem.WriteRegs(area, address, count, src);
      contents := was[id := mem.Abs()];
      StillValid(this, id);
    }
  }

  lemma Owned(s: Store, id: MemoryID)
    requires s.Valid() && id in s.data
    ensures var m := s.data[id];
            && m.Valid() && id in s.contents && s.contents[id] == m.Abs() && s.contents[id := m.Abs()] == s.contents
            && s !in s.Repr && m.Repr <= s.Repr
            && m in m.Repr && m.coilsBits in m.Repr && m.discreteInputsBits in m.Repr
            && m.holdingRegs in m.Repr && m.inputRegs in m.Repr
  {
  }

  /** A memory with cells of its own keeps the memories apart. */
  lemma SeparateAdd(data: map<MemoryID, Memory>, cells: set<object>, id: MemoryID, mem: Memory)
    requires Separate(data, cells) && mem.Valid() && mem.Repr !! cells
    ensures Separate(data[id := mem], cells + mem.Repr)
  {
    hide Memory.Valid;
  }

  lemma Apart(data: map<MemoryID, Memory>, cells: set<object>, id: MemoryID, other: MemoryID)
    requires Separate(data, cells) && id in data
    ensures data[id].Repr <= cells
    ensures other in data && id != other ==> data[id].Repr !! data[other].Repr
  {
  }

  /** Registering a memory of its own keeps the store in order. */
  twostate lemma Added(s: Store, new id: MemoryID, new mem: Memory)
    requires old(s.Valid()) && mem.Valid() && mem.Repr !! old(s.Repr) + {s}
    requires s.data == old(s.data)[id := mem] && s.contents == old(s.contents)[id := mem.Abs()]
    requires s.Repr == old(s.Repr) + mem.Repr
    requires forall o | o in old(s.Repr) :: unchanged(o)
    ensures s.Valid()
  {
    hide Memory.Valid, Separate, Memory.Abs;
    SeparateAdd(old(s.data), old(s.Repr), id, mem);
    forall other | other in s.data && other != id
      ensures s.data[other].Abs() == old(s.contents)[other]
    {
      Apart(old(s.data), old(s.Repr), other, other);
      Unmoved(s, other);
    }
  }

  /** A memory whose cells are left alone keeps its value. */
  twostate lemma Unmoved(s: Store, new id: MemoryID)
    requires old(s.Valid()) && id in old(s.data)
    requires forall o | o in old(s.data)[id].Repr :: unchanged(o)
    ensures old(s.data)[id].Abs() == old(s.contents)[id]
  {
    var m := old(s.data)[id];
    assert m.Abs() == old(m.Abs());
  }

  /** Changing the cells of one memory changes the value of no other. */
  twostate lemma StillValid(s: Store, new id: MemoryID)
    requires old(s.Valid()) && s.data == old(s.data) && s.Repr == old(s.Repr) && id in s.data
    requires s.contents == old(s.contents)[id := s.data[id].Abs()]
    requires forall o | o in old(s.Repr) && o !in s.data[id].Repr :: unchanged(o)
    ensures s.Valid()
  {
    hide Memory.Valid, Separate, Memory.Abs;
    forall other | other in s.data && other != id
      ensures s.data[other].Abs() == old(s.contents)[other]
    {
      Apart(s.data, s.Repr, other, id);
      Unmoved(s, other);
    }
  }
}
