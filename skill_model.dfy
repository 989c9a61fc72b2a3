/** SkillModel: the `skill` table, a find-or-create table keyed by (name, category) with a
    search counter per skill. */
module SkillModel {
  import opened Php
  import opened Store

  // ---------------------------------------------------------------------------------------
  // Lookup and find-or-create

  /** `SELECT * FROM skill WHERE skill_name = name AND category_id = cat`, first row fetched. */
  function FindSkill(rows: seq<SkillRow>, name: string, cat: int): (r: Option<SkillRow>)
    ensures r.Some? ==> r.value in rows && r.value.name == name && r.value.categoryId == cat
    ensures r.None? <==> forall i :: 0 <= i < |rows| ==> !(rows[i].name == name && rows[i].categoryId == cat)
    decreases |rows|
  {
    if rows == [] then None
    else if rows[0].name == name && rows[0].categoryId == cat then Some(rows[0])
    else
      var rest := FindSkill(rows[1..], name, cat);
      assert forall i :: 1 <= i < |rows| ==> rows[i] == rows[1..][i - 1];
      rest
  }

  /** A new row goes after the existing ones, so a lookup that found nothing before finds it now. */
  lemma {:induction false} FindSkillAppend(rows: seq<SkillRow>, row: SkillRow)
    requires FindSkill(rows, row.name, row.categoryId).None?
    ensures FindSkill(rows + [row], row.name, row.categoryId) == Some(row)
    decreases |rows|
  {
    if rows != [] {
      assert (rows + [row])[1..] == rows[1..] + [row];
      FindSkillAppend(rows[1..], row);
    }
  }

  /** `INSERT INTO skill (skill_name, category_id, search_counter) VALUES (name, cat, 0)`. */
  function InsertSkill(t: Tables, name: string, cat: int): Tables
  {
    t.(skills := t.skills + [SkillRow(t.nextSkillId, name, cat, 0)], nextSkillId := t.nextSkillId + 1)
  }

  /** What a successful create leaves: the tables, and the id it returns. */
  function FindOrCreate(t: Tables, name: string, cat: int): (r: (Tables, int))
    ensures FindSkill(r.0.skills, name, cat).Some? && FindSkill(r.0.skills, name, cat).value.skillId == r.1
    ensures FindSkill(t.skills, name, cat).Some? ==> r.0 == t
    ensures FindSkill(t.skills, name, cat).None? ==> r.0 == InsertSkill(t, name, cat) && r.1 == t.nextSkillId
  {
    match FindSkill(t.skills, name, cat)
    case Some(found) => (t, found.skillId)
    case None =>
      FindSkillAppend(t.skills, SkillRow(t.nextSkillId, name, cat, 0));
      (InsertSkill(t, name, cat), t.nextSkillId)
  }

  /** create is idempotent: a second create with the same name and category returns the same id
      and inserts nothing; the two calls together insert at most one row. */
  lemma CreateIdempotent(t: Tables, name: string, cat: int)
    ensures FindOrCreate(FindOrCreate(t, name, cat).0, name, cat) == FindOrCreate(t, name, cat)
    ensures |FindOrCreate(t, name, cat).0.skills| <= |t.skills| + 1
  {
  }

  lemma InsertSkillKeepsIdsValid(t: Tables, name: string, cat: int)
    requires 1 <= t.nextSkillId && SkillIdsValid(t.skills, t.nextSkillId)
    ensures SkillIdsValid(InsertSkill(t, name, cat).skills, InsertSkill(t, name, cat).nextSkillId)
  {
    var rows := InsertSkill(t, name, cat).skills;
    forall i, j | 0 <= i < j < |rows| ensures rows[i].skillId != rows[j].skillId {
      assert rows[i] == t.skills[i];
      if j < |t.skills| {
        assert rows[j] == t.skills[j];
      }
    }
  }

  /** SkillModel::getByNameAndCategory. */
  method GetByNameAndCategory(db: Connection, name: string, cat: int) returns (skill: Option<SkillRow>)
    ensures skill == FindSkill(db.data.skills, name, cat)
  {
    skill := FindSkill(db.data.skills, name, cat);
  }

  /** SkillModel::create: the id of an existing skill with this name and category, without
      writing; otherwise the id of a newly inserted skill with search counter 0; `false` (None)
      when the insert fails. */
  method Create(db: Connection, name: string, cat: int) returns (id: Option<int>)
    requires db.Valid()
    modifies db
    ensures db.Valid()
    ensures db.inTransaction == old(db.inTransaction) && db.snapshot == old(db.snapshot)
    ensures FindSkill(old(db.data.skills), name, cat).Some? || SkillTable !in db.failing ==>
              id == Some(FindOrCreate(old(db.data), name, cat).1) && db.data == FindOrCreate(old(db.data), name, cat).0
    ensures FindSkill(old(db.data.skills), name, cat).None? && SkillTable in db.failing ==>
              id == None && db.data == old(db.data)
  {
    var existing := GetByNameAndCategory(db, name, cat);
    if existing.Some? {
      return Some(existing.value.skillId);
    }
    if SkillTable in db.failing {
      return None;
    }
    var newId := db.data.nextSkillId;
    InsertSkillKeepsIdsValid(db.data, name, cat);
    db.data := InsertSkill(db.data, name, cat);
    id := Some(newId);
  }

  // ---------------------------------------------------------------------------------------
  // Search counter

  /** `UPDATE skill SET search_counter = search_counter + 1 WHERE skill_id = id`. */
  function Bump(rows: seq<SkillRow>, id: int): (r: seq<SkillRow>)
    ensures |r| == |rows|
    ensures forall i :: 0 <= i < |rows| && rows[i].skillId == id ==>
              r[i] == rows[i].(searchCounter := rows[i].searchCounter + 1)
    ensures forall i :: 0 <= i < |rows| && rows[i].skillId != id ==> r[i] == rows[i]
    decreases |rows|
  {
    if rows == [] then []
    else
      var last := rows[|rows| - 1];
      Bump(rows[..|rows| - 1], id) + [if last.skillId == id then last.(searchCounter := last.searchCounter + 1) else last]
  }

  /** SkillModel::incrementSearchCounter: raises that skill's counter by exactly one and touches
      no other skill; an unknown id matches no row and still succeeds. */
  method IncrementSearchCounter(db: Connection, id: int) returns (ok: bool)
    requires db.Valid()
    modifies db
    ensures db.Valid()
    ensures db.inTransaction == old(db.inTransaction) && db.snapshot == old(db.snapshot)
    ensures ok == (SkillTable !in db.failing)
    ensures db.data == if ok then old(db.data).(skills := Bump(old(db.data.skills), id)) else old(db.data)
  {
    if SkillTable in db.failing {
      return false;
    }
    db.data := db.data.(skills := Bump(db.data.skills, id));
    ok := true;
  }

  // ---------------------------------------------------------------------------------------
  // Listing one category, ordered by name

  /** The ordering of `ORDER BY skill_name`, character by character. */
  predicate NameLe(a: string, b: string)
    decreases |a|
  {
    a == [] || (b != [] && (a[0] < b[0] || (a[0] == b[0] && NameLe(a[1..], b[1..]))))
  }

  lemma {:induction false} NameLeTotal(a: string, b: string)
    ensures NameLe(a, b) || NameLe(b, a)
    decreases |a|
  {
    if a != [] && b != [] && a[0] == b[0] {
      NameLeTotal(a[1..], b[1..]);
    }
  }

  predicate SortedByName(rows: seq<SkillRow>)
  {
    forall i :: 0 < i < |rows| ==> NameLe(rows[i - 1].name, rows[i].name)
  }

  /** `WHERE category_id = cat`, in table order. */
  function OfCategory(rows: seq<SkillRow>, cat: int): (r: seq<SkillRow>)
    ensures forall x :: x in r <==> x in rows && x.categoryId == cat
    decreases |rows|
  {
    if rows == [] then []
    else
      assert rows == [rows[0]] + rows[1..];
      (if rows[0].categoryId == cat then [rows[0]] else []) + OfCategory(rows[1..], cat)
  }

  /** Puts one row into a list sorted by name. */
  function InsertByName(x: SkillRow, rows: seq<SkillRow>): (r: seq<SkillRow>)
    requires SortedByName(rows)
    ensures SortedByName(r)
    ensures multiset(r) == multiset(rows) + multiset{x}
    ensures r[0] == x || (rows != [] && r[0] == rows[0])
    decreases |rows|
  {
    if rows == [] then [x]
    else if NameLe(x.name, rows[0].name) then [x] + rows
    else
      NameLeTotal(x.name, rows[0].name);
      var rest := InsertByName(x, rows[1..]);
      assert rows == [rows[0]] + rows[1..];
      [rows[0]] + rest
  }

  /** `ORDER BY skill_name`: rows with equal names may come in any order. */
  function SortByName(rows: seq<SkillRow>): (r: seq<SkillRow>)
    ensures SortedByName(r)
    ensures multiset(r) == multiset(rows)
    decreases |rows|
  {
    if rows == [] then []
    else
      assert rows == [rows[0]] + rows[1..];
      InsertByName(rows[0], SortByName(rows[1..]))
  }

  /** SkillModel::getAllByCategory: exactly the skills of that category, each as often as it
      is stored, ordered by name. */
  method GetAllByCategory(db: Connection, cat: int) returns (skills: seq<SkillRow>)
    ensures SortedByName(skills)
    ensures multiset(skills) == multiset(OfCategory(db.data.skills, cat))
    ensures forall x :: x in skills <==> x in db.data.skills && x.categoryId == cat
  {
    skills := SortByName(OfCategory(db.data.skills, cat));
    assert forall x :: x in skills <==> x in multiset(skills);
  }
}
