/** `src/controller/DepartmentsController.js`: department records, changed
    only by callers whose token carries the role `"admin"`. The update
    handler assembles its SQL text and parameter list step by step. */
module DepartmentsController {
  import opened Wrappers
  import opened Errors
  import opened Tables
  import opened JsString

  /** `req.user.role !== "admin"` is the gate of add, update and delete. */
  predicate IsAdmin(role: Option<string>) { role == Some("admin") }

  predicate Truthy(v: Option<string>) { v.Some? && v.value != "" }

  /** What `addDepartment` promises: the admin gate first, then a falsy name,
      then a name already in use; a request without a description reaches the
      insert with an `undefined` parameter, which the driver refuses;
      otherwise exactly one row `(name, description, image)` is appended. */
  function AddDepartmentSpec(departments: seq<DepartmentRow>, nextId: nat, role: Option<string>,
                             name: Option<string>, description: Option<string>, file: Option<string>)
    : Result<seq<DepartmentRow>, Failure>
  {
    if !IsAdmin(role) then Err(NotAuthorized)
    else if !Truthy(name) then Err(NameRequired)
    else if exists d :: d in departments && d.name == name.value then Err(DepartmentExists)
    else if description.None? then Err(UndefinedBindParameter)
    else Ok(departments + [DepartmentRow(nextId, name.value, description, file)])
  }

  /** `addDepartment`; `file` is the uploaded image's name (`req.file.filename`), None without an upload. */
  method AddDepartment(db: Database, role: Option<string>, name: Option<string>, description: Option<string>,
                       file: Option<string>) returns (res: Result<(), Failure>)
    requires db.Valid()
    modifies db`departments, db`nextDepartmentId
    ensures db.Valid()
    ensures match AddDepartmentSpec(old(db.departments), old(db.nextDepartmentId), role, name, description, file)
      case Ok(rows) => res == Ok(()) && db.departments == rows && db.nextDepartmentId == old(db.nextDepartmentId) + 1
      case Err(e) => res == Err(e) && db.departments == old(db.departments) && db.nextDepartmentId == old(db.nextDepartmentId)
  {
    if role != Some("admin") {
      return Err(NotAuthorized);
    }
    var image := file;
    if !Truthy(name) {
      return Err(NameRequired);
    }
    var n := name.value;
    var named := (d: DepartmentRow) => d.name == n;
    var existing := Where(db.departments, named);
    WhereMembers(db.departments, named);
    if |existing| > 0 {
      assert existing[0] in db.departments;
      return Err(DepartmentExists);
    }
    assert forall d :: d in db.departments ==> d.name != n by {
      forall d | d in db.departments ensures d.name != n {
        assert d in existing <==> d.name == n;
      }
    }
    if description.None? {
      return Err(UndefinedBindParameter);
    }
    var row := DepartmentRow(db.nextDepartmentId, n, description, image);
    KeyedAppend(db.departments, DepartmentId, db.nextDepartmentId, row);
    db.departments := db.departments + [row];
    db.nextDepartmentId := db.nextDepartmentId + 1;
    res := Ok(());
  }

  /** No two departments share a name. */
  ghost predicate UniqueNames(departments: seq<DepartmentRow>) {
    forall i, j :: 0 <= i < j < |departments| ==> departments[i].name != departments[j].name
  }

  /** Adding keeps department names unique. */
  lemma AddKeepsNamesUnique(departments: seq<DepartmentRow>, nextId: nat, role: Option<string>,
                            name: Option<string>, description: Option<string>, file: Option<string>)
    requires UniqueNames(departments)
    requires AddDepartmentSpec(departments, nextId, role, name, description, file).Ok?
    ensures UniqueNames(AddDepartmentSpec(departments, nextId, role, name, description, file).value)
  {
    var rows := AddDepartmentSpec(departments, nextId, role, name, description, file).value;
    forall i, j | 0 <= i < j < |rows| ensures rows[i].name != rows[j].name {
      if j == |departments| {
        assert rows[i] == departments[i] && rows[i] in departments;
      }
    }
  }

  /** `getOneDepartment`: the first row with the id. */
  function GetOneDepartment(departments: seq<DepartmentRow>, id: nat): (r: Result<DepartmentRow, Failure>)
    ensures r.Err? <==> forall i :: 0 <= i < |departments| ==> departments[i].id != id
    ensures r.Err? ==> r.error == DepartmentNotFound
    ensures forall k :: 0 <= k < |departments| && departments[k].id == id && (forall j :: 0 <= j < k ==> departments[j].id != id) ==>
      r == Ok(departments[k])
  {
    var withId := (d: DepartmentRow) => d.id == id;
    WhereMembers(departments, withId);
    var department := Where(departments, withId);
    if |department| == 0 then Err(DepartmentNotFound) else Ok(department[0])
  }

  datatype Column = NameCol | DescriptionCol | ImageCol

  /** The fixed order in which the handler tests the fields. */
  function Rank(c: Column): nat {
    match c
    case NameCol => 0
    case DescriptionCol => 1
    case ImageCol => 2
  }

  function ColumnName(c: Column): string {
    match c
    case NameCol => "name"
    case DescriptionCol => "description"
    case ImageCol => "image"
  }

  datatype Assignment = Assignment(col: Column, value: string)

  /** The `SET` assignments of an update: one per truthy field, in the order name, description, image. */
  function Assignments(name: Option<string>, description: Option<string>, image: Option<string>): seq<Assignment> {
    (if Truthy(name) then [Assignment(NameCol, name.value)] else [])
    + (if Truthy(description) then [Assignment(DescriptionCol, description.value)] else [])
    + (if Truthy(image) then [Assignment(ImageCol, image.value)] else [])
  }

  /** A column is assigned exactly when its field is truthy, and then to that field's value. */
  lemma AssignmentsExactlyTruthy(name: Option<string>, description: Option<string>, image: Option<string>)
    ensures var asg := Assignments(name, description, image);
      && ((exists a :: a in asg && a.col == NameCol) <==> Truthy(name))
      && ((exists a :: a in asg && a.col == DescriptionCol) <==> Truthy(description))
      && ((exists a :: a in asg && a.col == ImageCol) <==> Truthy(image))
      && (forall a :: a in asg ==> a.value == (match a.col case NameCol => name.value
                                                           case DescriptionCol => description.value
                                                           case ImageCol => image.value))
  {
    AssignmentsMembers(name, description, image);
    var asg := Assignments(name, description, image);
    if Truthy(name) {
      assert Assignment(NameCol, name.value) in asg;
    }
    if Truthy(description) {
      assert Assignment(DescriptionCol, description.value) in asg;
    }
    if Truthy(image) {
      assert Assignment(ImageCol, image.value) in asg;
    }
  }

  /** The assignments are exactly the truthy fields' ones. */
  lemma AssignmentsMembers(name: Option<string>, description: Option<string>, image: Option<string>)
    ensures forall a :: a in Assignments(name, description, image) <==>
      || (Truthy(name) && a == Assignment(NameCol, name.value))
      || (Truthy(description) && a == Assignment(DescriptionCol, description.value))
      || (Truthy(image) && a == Assignment(ImageCol, image.value))
  {
    var n := if Truthy(name) then [Assignment(NameCol, name.value)] else [];
    var ds := if Truthy(description) then [Assignment(DescriptionCol, description.value)] else [];
    var im := if Truthy(image) then [Assignment(ImageCol, image.value)] else [];
    assert Assignments(name, description, image) == n + ds + im;
  }

  /** The assignments follow the fixed field order, each column at most once. */
  lemma AssignmentsOrdered(name: Option<string>, description: Option<string>, image: Option<string>)
    ensures var asg := Assignments(name, description, image);
      forall i, j :: 0 <= i < j < |asg| ==> Rank(asg[i].col) < Rank(asg[j].col)
  {
  }

  /** One `col = ?` clause. */
  function Clause(a: Assignment): string { ColumnName(a.col) + " = ?" }

  /** The clauses of the assignments, in order. */
  function Clauses(asg: seq<Assignment>): (cs: seq<string>) {
    seq(|asg|, i requires 0 <= i < |asg| => Clause(asg[i]))
  }

  /** The clauses separated by `", "`, with nothing after the last. */
  function SetList(cs: seq<string>): string {
    if cs == [] then ""
    else if |cs| == 1 then cs[0]
    else cs[0] + ", " + SetList(cs[1..])
  }

  /** The clauses each followed by `", "`, as the `+=` steps leave them. */
  function Appended(cs: seq<string>): string {
    if cs == [] then "" else Appended(cs[..|cs| - 1]) + cs[|cs| - 1] + ", "
  }

  const UpdatePrefix: string := "UPDATE departments SET "
  const WhereCondition: string := " WHERE id = "
  const WhereId: string := WhereCondition + "?"

  /** A placeholder value: a body field's text, or the path's id. */
  datatype Param = Text(s: string) | Key(id: nat)

  datatype UpdateStatement = UpdateStatement(sql: string, values: seq<Param>)

  function Values(asg: seq<Assignment>): (r: seq<Param>) {
    seq(|asg|, i requires 0 <= i < |asg| => Text(asg[i].value))
  }

  /** The statement an update sends: the `SET` list, the id condition, and
      the values in clause order with the id last. */
  function RenderUpdate(asg: seq<Assignment>, id: nat): UpdateStatement {
    UpdateStatement(UpdatePrefix + SetList(Clauses(asg)) + WhereId, Values(asg) + [Key(id)])
  }

  lemma ClausesSnoc(done: seq<Assignment>, a: Assignment)
    ensures Clauses(done + [a]) == Clauses(done) + [Clause(a)]
  {
  }

  lemma AppendedSnoc(cs: seq<string>, c: string)
    ensures Appended(cs + [c]) == Appended(cs) + (c + ", ")
  {
    assert (cs + [c])[..|cs|] == cs;
    ConcatAssoc(Appended(cs), c, ", ");
  }

  lemma DropSeparator(x: string)
    ensures (x + ", ")[..|x|] == x
  {
  }

  /** The appended clauses end with `", "`. */
  lemma AppendedEnds(cs: seq<string>)
    requires cs != []
    ensures |Appended(cs)| >= 2
    ensures Appended(cs) == Appended(cs)[..|Appended(cs)| - 2] + ", "
  {
    var p := Appended(cs[..|cs| - 1]) + cs[|cs| - 1];
    assert Appended(cs) == p + ", ";
    DropSeparator(p);
  }

  /** Adding a clause at the end of a non-empty list adds `", "` and the clause. */
  lemma {:induction false} SetListSnoc(cs: seq<string>, c: string)
    requires cs != []
    ensures SetList(cs + [c]) == SetList(cs) + ", " + c
  {
    if |cs| == 1 {
      assert (cs + [c])[1..] == [c];
    } else {
      var c0, rest := cs[0] + ", ", SetList(cs[1..]);
      assert (cs + [c])[1..] == cs[1..] + [c];
      assert SetList(cs + [c]) == c0 + SetList(cs[1..] + [c]);
      SetListSnoc(cs[1..], c);
      assert SetList(cs) == c0 + rest;
      ConcatAssoc(c0, rest + ", ", c);
      ConcatAssoc(c0, rest, ", ");
    }
  }

  /** Removing the last `", "` of the appended clauses leaves the separated list. */
  lemma {:induction false} AppendedTrimmed(cs: seq<string>)
    requires cs != []
    ensures |Appended(cs)| >= 2
    ensures Appended(cs)[..|Appended(cs)| - 2] == SetList(cs)
  {
    var init := cs[..|cs| - 1];
    var last := cs[|cs| - 1];
    var p := Appended(init) + last;
    assert Appended(cs) == p + ", ";
    DropSeparator(p);
    if init == [] {
      assert cs == [last];
    } else {
      AppendedTrimmed(init);
      AppendedEnds(init);
      SetListSnoc(init, last);
      assert cs == init + [last];
    }
  }

  /** One `+=` step: the query text grows by the clause and `", "`. */
  lemma QueryStep(q: string, done: seq<Assignment>, a: Assignment, text: string)
    requires q == UpdatePrefix + Appended(Clauses(done)) && text == Clause(a) + ", "
    ensures q + text == UpdatePrefix + Appended(Clauses(done + [a]))
  {
    ClausesSnoc(done, a);
    AppendedSnoc(Clauses(done), Clause(a));
    ConcatAssoc(UpdatePrefix, Appended(Clauses(done)), text);
  }

  /** The text each `+=` step appends is the clause of its column and `", "`. */
  lemma NameStep(q: string, done: seq<Assignment>, v: string)
    requires q == UpdatePrefix + Appended(Clauses(done))
    ensures q + "name = ?, " == UpdatePrefix + Appended(Clauses(done + [Assignment(NameCol, v)]))
  {
    QueryStep(q, done, Assignment(NameCol, v), "name = ?, ");
  }

  lemma DescriptionStep(q: string, done: seq<Assignment>, v: string)
    requires q == UpdatePrefix + Appended(Clauses(done))
    ensures q + "description = ?, " == UpdatePrefix + Appended(Clauses(done + [Assignment(DescriptionCol, v)]))
  {
    QueryStep(q, done, Assignment(DescriptionCol, v), "description = ?, ");
  }

  lemma ImageStep(q: string, done: seq<Assignment>, v: string)
    requires q == UpdatePrefix + Appended(Clauses(done))
    ensures q + "image = ?, " == UpdatePrefix + Appended(Clauses(done + [Assignment(ImageCol, v)]))
  {
    QueryStep(q, done, Assignment(ImageCol, v), "image = ?, ");
  }

  /** One `push` step: the values grow by the clause's value. */
  lemma ValuesStep(vals: seq<Param>, done: seq<Assignment>, a: Assignment)
    requires vals == Values(done)
    ensures vals + [Text(a.value)] == Values(done + [a])
  {
  }

  /** `updateQuery.slice(0, -2)` leaves the prefix and the separated list. */
  lemma DropTrailingSeparator(q: string, done: seq<Assignment>)
    requires q == UpdatePrefix + Appended(Clauses(done)) && done != []
    ensures |q| >= 2 && q[..|q| - 2] == UpdatePrefix + SetList(Clauses(done))
  {
    var t := Appended(Clauses(done));
    AppendedTrimmed(Clauses(done));
    assert q[..|q| - 2] == UpdatePrefix + t[..|t| - 2];
  }

  /** The last steps: drop `", "`, add the condition and push the id. */
  lemma FinishUpdate(q: string, vals: seq<Param>, done: seq<Assignment>, id: nat)
    requires q == UpdatePrefix + Appended(Clauses(done)) && vals == Values(done) && done != []
    ensures |q| >= 2
    ensures q[..|q| - 2] + WhereId == RenderUpdate(done, id).sql
    ensures vals + [Key(id)] == RenderUpdate(done, id).values
  {
    DropTrailingSeparator(q, done);
  }

  /** `updateDepartment`'s query builder, step by step as the source: the
      prefix, a clause and a value for each truthy field, 400 when there are
      none, the last two characters dropped, the condition and the id added. */
  method BuildUpdate(name: Option<string>, description: Option<string>, image: Option<string>, id: nat)
    returns (res: Result<UpdateStatement, Failure>)
    ensures Assignments(name, description, image) == [] ==> res == Err(NoFieldsToUpdate)
    ensures Assignments(name, description, image) != [] ==> res == Ok(RenderUpdate(Assignments(name, description, image), id))
  {
    var updateQuery := UpdatePrefix;
    var updateValues: seq<Param> := [];
    ghost var done: seq<Assignment> := [];
    if Truthy(name) {
      NameStep(updateQuery, done, name.value);
      ValuesStep(updateValues, done, Assignment(NameCol, name.value));
      updateQuery := updateQuery + "name = ?, ";
      updateValues := updateValues + [Text(name.value)];
      done := done + [Assignment(NameCol, name.value)];
    }
    if Truthy(description) {
      DescriptionStep(updateQuery, done, description.value);
      ValuesStep(updateValues, done, Assignment(DescriptionCol, description.value));
      updateQuery := updateQuery + "description = ?, ";
      updateValues := updateValues + [Text(description.value)];
      done := done + [Assignment(DescriptionCol, description.value)];
    }
    if Truthy(image) {
      ImageStep(updateQuery, done, image.value);
      ValuesStep(updateValues, done, Assignment(ImageCol, image.value));
      updateQuery := updateQuery + "image = ?, ";
      updateValues := updateValues + [Text(image.value)];
      done := done + [Assignment(ImageCol, image.value)];
    }
    assert done == Assignments(name, description, image);
    if |updateValues| == 0 {
      return Err(NoFieldsToUpdate);
    }
    FinishUpdate(updateQuery, updateValues, done, id);
    updateQuery := updateQuery[..|updateQuery| - 2];
    updateQuery := updateQuery + WhereId;
    updateValues := updateValues + [Key(id)];
    res := Ok(UpdateStatement(updateQuery, updateValues));
  }

  /** A clause holds one `?`, as its last character. */
  lemma ClausePlaceholder(a: Assignment)
    ensures Count(Clause(a), '?') == 1
    ensures |Clause(a)| > 0 && Clause(a)[|Clause(a)| - 1] == '?'
  {
    var head := ColumnName(a.col) + " = ";
    assert Clause(a) == head + "?";
    CountAbsent(head, '?');
    CountAppend(head, "?", '?');
  }

  lemma ClausesPlaceholders(asg: seq<Assignment>)
    ensures forall i :: 0 <= i < |asg| ==> Count(Clauses(asg)[i], '?') == 1
    ensures forall i :: 0 <= i < |asg| ==> |Clauses(asg)[i]| > 0 && Clauses(asg)[i][|Clauses(asg)[i]| - 1] == '?'
  {
    forall i | 0 <= i < |asg|
      ensures Count(Clauses(asg)[i], '?') == 1
      ensures |Clauses(asg)[i]| > 0 && Clauses(asg)[i][|Clauses(asg)[i]| - 1] == '?'
    {
      ClausePlaceholder(asg[i]);
    }
  }

  /** Clauses of one `?` each, separated by `", "`, hold one `?` per clause. */
  lemma {:induction false} SetListPlaceholders(cs: seq<string>)
    requires forall i :: 0 <= i < |cs| ==> Count(cs[i], '?') == 1
    ensures Count(SetList(cs), '?') == |cs|
  {
    if |cs| > 1 {
      SetListPlaceholders(cs[1..]);
      CountAbsent(", ", '?');
      CountAppend(cs[0], ", ", '?');
      CountAppend(cs[0] + ", ", SetList(cs[1..]), '?');
    }
  }

  /** The `SET` list holds one `?` per assignment. */
  lemma SetListCount(asg: seq<Assignment>)
    ensures Count(SetList(Clauses(asg)), '?') == |asg|
  {
    ClausesPlaceholders(asg);
    SetListPlaceholders(Clauses(asg));
  }

  lemma PrefixPlaceholders()
    ensures Count(UpdatePrefix, '?') == 0
  {
    CountAbsent(UpdatePrefix, '?');
  }

  lemma WhereIdPlaceholders()
    ensures Count(WhereId, '?') == 1
  {
    WhereConditionPlaceholders();
    WhereIdCount();
  }

  lemma WhereConditionPlaceholders()
    ensures Count(WhereCondition, '?') == 0
  {
    CountAbsent(WhereCondition, '?');
  }

  lemma WhereIdCount()
    ensures Count(WhereId, '?') == Count(WhereCondition, '?') + Count("?", '?')
  {
    CountAppend(WhereCondition, "?", '?');
  }

  /** The query has as many `?` as values. */
  lemma PlaceholdersMatchValues(asg: seq<Assignment>, id: nat)
    ensures Count(RenderUpdate(asg, id).sql, '?') == |RenderUpdate(asg, id).values|
  {
    var cs := Clauses(asg);
    SetListCount(asg);
    PrefixPlaceholders();
    WhereIdPlaceholders();
    CountConcat3(UpdatePrefix, SetList(cs), WhereId, '?');
  }

  /** A non-empty list of clauses ending in `?` ends with `?`. */
  lemma {:induction false} SetListEndsWithPlaceholder(cs: seq<string>)
    requires cs != []
    requires forall i :: 0 <= i < |cs| ==> |cs[i]| > 0 && cs[i][|cs[i]| - 1] == '?'
    ensures |SetList(cs)| > 0 && SetList(cs)[|SetList(cs)| - 1] == '?'
  {
    if |cs| > 1 {
      SetListEndsWithPlaceholder(cs[1..]);
    }
  }

  /** No `", "` directly before `" WHERE id = ?"`: the text before the condition ends with a placeholder. */
  lemma NoCommaBeforeWhere(asg: seq<Assignment>, id: nat)
    requires asg != []
    ensures var sql := RenderUpdate(asg, id).sql;
      && EndsWith(sql, WhereId)
      && var head := sql[..|sql| - |WhereId|];
         |head| > 0 && head[|head| - 1] == '?' && !EndsWith(head, ", ")
  {
    var cs := Clauses(asg);
    ClausesPlaceholders(asg);
    SetListEndsWithPlaceholder(cs);
    var sql := RenderUpdate(asg, id).sql;
    var head := UpdatePrefix + SetList(cs);
    assert sql == head + WhereId;
    assert sql[..|sql| - |WhereId|] == head;
    assert sql[|sql| - |WhereId|..] == WhereId;
    assert head[|head| - 1] == SetList(cs)[|SetList(cs)| - 1];
  }

  /** The effect of one `col = ?` assignment on a row. */
  function AssignOne(d: DepartmentRow, a: Assignment): DepartmentRow {
    match a.col
    case NameCol => d.(name := a.value)
    case DescriptionCol => d.(description := Some(a.value))
    case ImageCol => d.(image := Some(a.value))
  }

  /** The effect of the update's `SET` list on one row. */
  function Assign(d: DepartmentRow, asg: seq<Assignment>): DepartmentRow
    decreases |asg|
  {
    if asg == [] then d else Assign(AssignOne(d, asg[0]), asg[1..])
  }

  lemma {:induction false} AssignConcat(d: DepartmentRow, x: seq<Assignment>, y: seq<Assignment>)
    ensures Assign(d, x + y) == Assign(Assign(d, x), y)
    decreases |x|
  {
    if x == [] {
      assert x + y == y;
    } else {
      assert (x + y)[1..] == x[1..] + y;
      AssignConcat(AssignOne(d, x[0]), x[1..], y);
    }
  }

  /** The truthy fields replace the row's columns; the id and the rest stay. */
  lemma AssignFields(d: DepartmentRow, name: Option<string>, description: Option<string>, image: Option<string>)
    ensures var r := Assign(d, Assignments(name, description, image));
      && r.id == d.id
      && r.name == (if Truthy(name) then name.value else d.name)
      && r.description == (if Truthy(description) then description else d.description)
      && r.image == (if Truthy(image) then image else d.image)
  {
    var n := if Truthy(name) then [Assignment(NameCol, name.value)] else [];
    var ds := if Truthy(description) then [Assignment(DescriptionCol, description.value)] else [];
    var im := if Truthy(image) then [Assignment(ImageCol, image.value)] else [];
    AssignConcat(d, n + ds, im);
    AssignConcat(d, n, ds);
  }

  function UpdateRows(departments: seq<DepartmentRow>, id: nat, asg: seq<Assignment>): (r: seq<DepartmentRow>)
    ensures |r| == |departments|
    ensures forall i :: 0 <= i < |departments| ==>
      r[i] == if departments[i].id == id then Assign(departments[i], asg) else departments[i]
  {
    if departments == [] then []
    else [if departments[0].id == id then Assign(departments[0], asg) else departments[0]]
         + UpdateRows(departments[1..], id, asg)
  }

  /** An update never changes a row's id. */
  lemma {:induction false} AssignKeepsId(d: DepartmentRow, asg: seq<Assignment>)
    ensures Assign(d, asg).id == d.id
    decreases |asg|
  {
    if asg != [] {
      AssignKeepsId(AssignOne(d, asg[0]), asg[1..]);
    }
  }

  lemma UpdateRowsKeepIds(departments: seq<DepartmentRow>, id: nat, asg: seq<Assignment>)
    ensures forall i :: 0 <= i < |departments| ==> UpdateRows(departments, id, asg)[i].id == departments[i].id
  {
    forall i | 0 <= i < |departments| ensures UpdateRows(departments, id, asg)[i].id == departments[i].id {
      AssignKeepsId(departments[i], asg);
    }
  }

  /** What `updateDepartment` promises: the admin gate, then 400 when no
      field is truthy, otherwise the rows with the id take the new values,
      and the call succeeds whether or not such a row exists. */
  function UpdateDepartmentSpec(departments: seq<DepartmentRow>, role: Option<string>, id: nat,
                                name: Option<string>, description: Option<string>, file: Option<string>)
    : Result<seq<DepartmentRow>, Failure>
  {
    if !IsAdmin(role) then Err(NotAuthorized)
    else
      var asg := Assignments(name, description, file);
      if asg == [] then Err(NoFieldsToUpdate) else Ok(UpdateRows(departments, id, asg))
  }

  /** `updateDepartment`: the gate, the builder, and the statement applied to the table. */
  method UpdateDepartment(db: Database, role: Option<string>, id: nat, name: Option<string>,
                          description: Option<string>, file: Option<string>) returns (res: Result<UpdateStatement, Failure>)
    requires db.Valid()
    modifies db`departments
    ensures db.Valid()
    ensures match UpdateDepartmentSpec(old(db.departments), role, id, name, description, file)
      case Ok(rows) =>
        && res == Ok(RenderUpdate(Assignments(name, description, file), id))
        && db.departments == rows
      case Err(e) => res == Err(e) && db.departments == old(db.departments)
  {
    if role != Some("admin") {
      return Err(NotAuthorized);
    }
    var image := file;
    res := BuildUpdate(name, description, image, id);
    if res.Ok? {
      var rows := UpdateRows(db.departments, id, Assignments(name, description, image));
      UpdateRowsKeepIds(db.departments, id, Assignments(name, description, image));
      KeyedSameKeys(db.departments, rows, DepartmentId, db.nextDepartmentId);
      db.departments := rows;
    }
  }

  /** An update of an id no row has succeeds and changes nothing. */
  lemma UpdateMissingIdIsNoOp(departments: seq<DepartmentRow>, id: nat, name: Option<string>,
                              description: Option<string>, file: Option<string>)
    requires forall i :: 0 <= i < |departments| ==> departments[i].id != id
    requires Assignments(name, description, file) != []
    ensures UpdateDepartmentSpec(departments, Some("admin"), id, name, description, file) == Ok(departments)
  {
    assert UpdateRows(departments, id, Assignments(name, description, file)) == departments;
  }

  /** What `deleteDepartment` promises: the admin gate, then every row with the id removed, found or not. */
  function DeleteDepartmentSpec(departments: seq<DepartmentRow>, role: Option<string>, id: nat)
    : Result<seq<DepartmentRow>, Failure>
  {
    if !IsAdmin(role) then Err(NotAuthorized)
    else Ok(Where(departments, (d: DepartmentRow) => d.id != id))
  }

  /** `deleteDepartment`: `DELETE FROM departments WHERE id = ?`. */
  method DeleteDepartment(db: Database, role: Option<string>, id: nat) returns (res: Result<(), Failure>)
    requires db.Valid()
    modifies db`departments
    ensures db.Valid()
    ensures match DeleteDepartmentSpec(old(db.departments), role, id)
      case Ok(rows) => res == Ok(()) && db.departments == rows
      case Err(e) => res == Err(e) && db.departments == old(db.departments)
  {
    if role != Some("admin") {
      return Err(NotAuthorized);
    }
    KeyedWhere(db.departments, (d: DepartmentRow) => d.id != id, DepartmentId, db.nextDepartmentId);
    db.departments := Where(db.departments, (d: DepartmentRow) => d.id != id);
    res := Ok(());
  }

  /** Delete removes the rows with the id, keeps every other row in order, and leaves the id unknown. */
  lemma {:induction false} DeleteRemovesOnlyThatId(departments: seq<DepartmentRow>, role: Option<string>, id: nat)
    requires IsAdmin(role)
    ensures DeleteDepartmentSpec(departments, role, id).Ok?
    ensures var rows := DeleteDepartmentSpec(departments, role, id).value;
      && (forall d :: d in rows <==> d in departments && d.id != id)
      && GetOneDepartment(rows, id) == Err(DepartmentNotFound)
      && ((forall i :: 0 <= i < |departments| ==> departments[i].id != id) ==> rows == departments)
  {
    var rows := DeleteDepartmentSpec(departments, role, id).value;
    assert forall i :: 0 <= i < |rows| ==> rows[i] in rows;
    WhereMembers(departments, (d: DepartmentRow) => d.id != id);
    WhereAll(departments, (d: DepartmentRow) => d.id != id);
  }

  /** A filter that every row passes keeps the table as it is. */
  lemma {:induction false} WhereAll<T(!new)>(s: seq<T>, p: T -> bool)
    ensures (forall i :: 0 <= i < |s| ==> p(s[i])) ==> Where(s, p) == s
  {
    if s != [] {
      WhereAll(s[1..], p);
      assert (forall i :: 0 <= i < |s| ==> p(s[i])) ==> (forall i :: 0 <= i < |s[1..]| ==> p(s[1..][i])) by {
        assert forall i :: 0 <= i < |s[1..]| ==> s[1..][i] == s[i + 1];
      }
      assert s == [s[0]] + s[1..];
    }
  }

  /** Every admin operation refuses a caller who is not an admin and leaves the table as it is. */
  lemma NonAdminRefused(departments: seq<DepartmentRow>, nextId: nat, role: Option<string>, id: nat,
                        name: Option<string>, description: Option<string>, file: Option<string>)
    requires !IsAdmin(role)
    ensures AddDepartmentSpec(departments, nextId, role, name, description, file) == Err(NotAuthorized)
    ensures UpdateDepartmentSpec(departments, role, id, name, description, file) == Err(NotAuthorized)
    ensures DeleteDepartmentSpec(departments, role, id) == Err(NotAuthorized)
  {
  }
}
