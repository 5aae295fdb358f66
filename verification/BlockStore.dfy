// The persistent side of the IndexedDB file system in web/sqflite_sw.js (`A.jk`): an object store of
// files under numeric ids with a unique name index, and one of blocks under [id, offset] keys, here
// grouped by id.

module BlockStores {
  import opened Basics
  import opened FileContents
  import opened BlockWriters

  datatype FileEntry = FileEntry(name: string, length: nat)

  datatype Database = Database(files: map<nat, FileEntry>, blocks: map<nat, map<nat, Bytes>>, next: nat) {

    /** Names are unique, every block belongs to a file, and new ids are new. */
    ghost predicate Valid() {
      && (forall i, j :: i in files && j in files && files[i].name == files[j].name ==> i == j)
      && blocks.Keys <= files.Keys
      && (forall i :: i in files ==> i < next)
    }

    /** The blocks with keys [id, 0] up to [id, maximum]. */
    function BlocksOf(id: nat): map<nat, Bytes> {
      if id in blocks then blocks[id] else map[]
    }

    function Record(id: nat): FileRecord
      requires id in files
    {
      FileRecord(files[id].length, BlocksOf(id))
    }

    ghost predicate Has(name: string) {
      exists i :: i in files && files[i].name == name
    }

    ghost function Id(name: string): nat
      requires Has(name)
    {
      var i :| i in files && files[i].name == name; i
    }

    ghost function Names(): set<string> {
      set i | i in files :: files[i].name
    }

    /** The files by name, without the ids. */
    ghost function View(): map<string, FileRecord> {
      map n | n in Names() :: Record(Id(n))
    }

    lemma ViewAt(id: nat)
      requires Valid() && id in files
      ensures files[id].name in View() && View()[files[id].name] == Record(id)
    {
      assert files[id].name in Names();
    }

    lemma NotInView(name: string)
      ensures name in View() <==> Has(name)
    {
    }
  }

  /** Two databases that agree on all files but one show the same map except for that name. */
  lemma ViewUpdated(d: Database, e: Database, id: nat)
    requires d.Valid() && e.Valid() && id in e.files
    requires forall i :: i in d.files && i != id ==>
      i in e.files && e.files[i].name == d.files[i].name && e.Record(i) == d.Record(i)
    requires forall i :: i in e.files && i != id ==> i in d.files
    requires id in d.files ==> d.files[id].name == e.files[id].name
    ensures e.View() == d.View()[e.files[id].name := e.Record(id)]
  {
    hide Database.View, Database.Record;
    e.ViewAt(id);
    var m := d.View()[e.files[id].name := e.Record(id)];
    forall n ensures n in e.View() <==> n in m {
      e.NotInView(n);
      d.NotInView(n);
      if d.Has(n) {
        var i :| i in d.files && d.files[i].name == n;
        assert i in e.files && e.files[i].name == n;
      }
      if e.Has(n) {
        var i :| i in e.files && e.files[i].name == n;
      }
    }
    forall n | n in m ensures e.View()[n] == m[n] {
      e.NotInView(n);
      var i :| i in e.files && e.files[i].name == n;
      e.ViewAt(i);
      if i != id { d.ViewAt(i); }
    }
  }

  /** Writing one file's record changes the view at its name only. */
  lemma RecordReplaced(d: Database, e: Database, id: nat, rec: FileRecord)
    requires d.Valid() && id in d.files
    requires e == Database(d.files[id := FileEntry(d.files[id].name, rec.length)], d.blocks[id := rec.blocks], d.next)
    ensures e.Valid() && e.View() == d.View()[d.files[id].name := rec]
  {
    hide Database.View;
    assert e.Record(id) == rec;
    ViewUpdated(d, e, id);
  }

  class BlockStore {
    var db: Database

    constructor ()
      ensures db.Valid() && db.View() == map[]
    {
      db := Database(map[], map[], 1);
    }

    /** `bu`: the id of a file name, if there is one. */
    method Lookup(name: string) returns (id: Option<nat>)
      requires db.Valid()
      ensures if name in db.View()
        then id.Some? && id.value in db.files && db.files[id.value].name == name else id == None
    {
      db.NotInView(name);
      if i :| i in db.files && db.files[i].name == name {
        id := Some(i);
      } else {
        id := None;
      }
    }

    /** `A.cp.E`; None when the unique name index refuses the name. */
    method Add(name: string) returns (id: Option<nat>)
      requires db.Valid()
      modifies this
      ensures db.Valid()
      ensures name in old(db.View()) ==> id == None && db == old(db)
      ensures name !in old(db.View()) ==>
        && id.Some? && id.value in db.files && db.files[id.value].name == name
        && (forall i :: i in old(db).files ==> i in db.files && db.files[i] == old(db).files[i])
        && db.View() == old(db.View())[name := FileRecord(0, map[])]
    {
      hide Database.View;
      ghost var before := db;
      var taken := Lookup(name);
      if taken.Some? { return None; }
      db.NotInView(name);
      var i := db.next;
      db := Database(db.files[i := FileEntry(name, 0)], db.blocks, i + 1);
      id := Some(i);
      assert db.Record(i) == FileRecord(0, map[]);
      ViewUpdated(before, db, i);
    }

    /** `bt`. */
    method Delete(id: nat)
      requires db.Valid() && id in db.files
      modifies this
      ensures db.Valid() && db.files == old(db.files) - {id}
      ensures db.View() == old(db.View()) - {old(db.files)[id].name}
    {
      hide Database.View;
      ghost var before := db;
      db := Database(db.files - {id}, db.blocks - {id}, db.next);
      Deleted(before, db, id);
    }

    /** `al`; false when there is no such file. */
    method Truncate(id: nat, size: nat) returns (ok: bool)
      requires db.Valid()
      modifies this
      ensures db.Valid() && ok == (id in old(db.files)) && db.files.Keys == old(db.files.Keys)
      ensures !ok ==> db == old(db)
      ensures ok ==> db.files[id].name == old(db.files)[id].name
      ensures ok ==> forall i :: i in db.files && i != id ==> db.files[i] == old(db.files)[i]
      ensures ok ==> var n := old(db.files)[id].name;
        db.View() == old(db.View())[n := Truncated(old(db).Record(id), size)]
    {
      hide Database.View, Database.Valid;
      if id !in db.files { return false; }
      ghost var before := db;
      var n := db.files[id];
      var blocks: map<nat, Bytes> := db.BlocksOf(id);
      if n.length > size {
        blocks := map p: nat | p in blocks && !(p >= size / 4096 * 4096 + 1) :: blocks[p];
      }
      db := Database(db.files[id := FileEntry(n.name, size)], db.blocks[id := blocks], db.next);
      ok := true;
      assert blocks == Truncated(before.Record(id), size).blocks;
      RecordReplaced(before, db, id, Truncated(before.Record(id), size));
    }

    /** `ah`; false when there is no such file. */
    method PutBlocks(id: nat, w: BlockWriter, ghost content: Bytes, ghost touched: set<nat>) returns (ok: bool)
      requires db.Valid()
      requires w.length == |content| && w.blocks == PagesOf(content, touched)
      modifies this
      ensures db.Valid() && ok == (id in old(db.files)) && db.files.Keys == old(db.files.Keys)
      ensures !ok ==> db == old(db)
      ensures ok ==> db.files[id].name == old(db.files)[id].name
      ensures ok ==> forall i :: i in db.files && i != id ==> db.files[i] == old(db.files)[i]
      ensures ok ==> var n := old(db.files)[id].name;
        db.View() == old(db.View())[n := Patched(old(db).Record(id), content, touched)]
    {
      hide Database.View, Database.Valid;
      if id !in db.files { return false; }
      ghost var before := db;
      var n := db.files[id];
      var blocks := db.blocks[id := db.BlocksOf(id) + w.blocks];
      var files := db.files;
      if w.length != n.length {
        files := files[id := FileEntry(n.name, w.length)];
      }
      db := Database(files, blocks, db.next);
      ok := true;
      assert files == before.files[id := FileEntry(n.name, w.length)];
      RecordReplaced(before, db, id, Patched(before.Record(id), content, touched));
    }

    /** `aD`. */
    method Read(id: nat) returns (content: Option<Bytes>)
      requires db.Valid() && id in db.files
      ensures content == ReadBack(db.Record(id))
    {
      var length, blocks := db.files[id].length, db.BlocksOf(id);
      ghost var rec := db.Record(id);
      if p :| p in blocks && p > length {
        return None;
      }
      var bytes: Bytes := [];
      while |bytes| < length
        invariant |bytes| <= length
        invariant forall j :: 0 <= j < |bytes| ==> bytes[j] == Stored(rec, j)
      {
        var i := |bytes|;
        var p := i / 4096 * 4096;
        bytes := bytes + [if p in blocks then At(blocks[p], i - p) else 0];
      }
      content := Some(bytes);
      assert bytes == ReadBack(rec).value;
    }
  }

  lemma Deleted(d: Database, e: Database, id: nat)
    requires d.Valid() && id in d.files && e.files == d.files - {id} && e.next == d.next
    requires e.blocks == d.blocks - {id}
    ensures e.Valid() && e.View() == d.View() - {d.files[id].name}
  {
    hide Database.View;
    var m := d.View() - {d.files[id].name};
    forall n ensures n in e.View() <==> n in m {
      e.NotInView(n);
      d.NotInView(n);
      if n in m {
        var i :| i in d.files && d.files[i].name == n;
        assert i in e.files;
      }
    }
    forall n | n in m ensures e.View()[n] == m[n] {
      e.NotInView(n);
      var i :| i in e.files && e.files[i].name == n;
      e.ViewAt(i);
      d.ViewAt(i);
    }
  }
}
