/** ActiveScaffold's Search action configuration: which columns the search box looks in,
    and whether it runs a full-text search. */
module ScaffoldSearch {
  import opened Wrappers

  datatype CrudType = CreateCrud | ReadCrud | UpdateCrud | DeleteCrud

  /** The type of the database column behind a scaffold column (`c.column.type`). */
  datatype ColumnType = StringType | TextType | IntegerType | FloatType | DateType | BooleanType | OtherType(name: string)

  /** A scaffold column: `dbColumn` is None for a virtual column (`c.column` is nil). */
  datatype Column = Column(name: string, searchable: bool, dbColumn: Option<ColumnType>)

  /** The outcome of the `collect` over the core columns: the names, or the NoMethodError
      raised by `nil.type` when a searchable column has no database column. */
  datatype Collected = Names(names: seq<string>) | NoMethodError

  predicate IsTextual(t: ColumnType) { t == StringType || t == TextType }

  /** The test inside the `collect`: `c.searchable? and (c.column.type == :string or ...)`.
      `and` short-circuits, so a column that is not searchable is never asked for its type. */
  predicate Selected(c: Column)
  {
    c.searchable && c.dbColumn.Some? && IsTextual(c.dbColumn.value)
  }

  predicate Raises(c: Column) { c.searchable && c.dbColumn.None? }

  /** `@core.columns.collect{|c| c.name if ...}.compact` */
  function DefaultSearchColumns(core: seq<Column>): (r: Collected)
  {
    if core == [] then Names([])
    else if Raises(core[0]) then NoMethodError
    else match DefaultSearchColumns(core[1..])
      case NoMethodError => NoMethodError
      case Names(rest) => Names((if Selected(core[0]) then [core[0].name] else []) + rest)
  }

  /** The collect raises exactly when some searchable column has no database column. */
  lemma {:induction false} DefaultSearchColumnsRaises(core: seq<Column>)
    ensures DefaultSearchColumns(core).NoMethodError? <==> exists k :: 0 <= k < |core| && Raises(core[k])
  {
    if core != [] {
      DefaultSearchColumnsRaises(core[1..]);
      if exists k :: 0 <= k < |core[1..]| && Raises(core[1..][k]) {
        var k :| 0 <= k < |core[1..]| && Raises(core[1..][k]);
        assert Raises(core[k + 1]);
      }
      if exists k :: 0 <= k < |core| && Raises(core[k]) {
        var k :| 0 <= k < |core| && Raises(core[k]);
        if k > 0 { assert Raises(core[1..][k - 1]); }
      }
    }
  }

  /** A name is a default search column iff it names a searchable column of textual type. */
  lemma {:induction false} DefaultSearchColumnsMembers(core: seq<Column>, n: string)
    requires DefaultSearchColumns(core).Names?
    ensures n in DefaultSearchColumns(core).names <==>
      exists k :: 0 <= k < |core| && Selected(core[k]) && core[k].name == n
  {
    if core != [] {
      DefaultSearchColumnsMembers(core[1..], n);
      if exists k :: 0 <= k < |core[1..]| && Selected(core[1..][k]) && core[1..][k].name == n {
        var k :| 0 <= k < |core[1..]| && Selected(core[1..][k]) && core[1..][k].name == n;
        assert Selected(core[k + 1]) && core[k + 1].name == n;
      }
      if exists k :: 0 <= k < |core| && Selected(core[k]) && core[k].name == n {
        var k :| 0 <= k < |core| && Selected(core[k]) && core[k].name == n;
        if k > 0 { assert Selected(core[1..][k - 1]) && core[1..][k - 1].name == n; }
      }
    }
  }

  /** Appending a column appends its name (when selected) and keeps the earlier names in
      order: the default list follows core order. */
  lemma {:induction false} DefaultSearchColumnsSnoc(core: seq<Column>, c: Column)
    requires DefaultSearchColumns(core).Names? && !Raises(c)
    ensures DefaultSearchColumns(core + [c]) ==
      Names(DefaultSearchColumns(core).names + (if Selected(c) then [c.name] else []))
  {
    if core == [] {
      assert core + [c] == [c];
      assert [c][1..] == [];
    } else {
      assert (core + [c])[1..] == core[1..] + [c];
      assert (core + [c])[0] == core[0];
      DefaultSearchColumnsSnoc(core[1..], c);
    }
  }

  /** The class-level setting (`@@full_text_search`, changed through `cattr_writer`). */
  class SearchDefaults {
    var fullTextSearch: bool

    constructor ()
      ensures fullTextSearch
    {
      fullTextSearch := true;
    }

    /** `cattr_writer :full_text_search` */
    method SetFullTextSearch(v: bool)
      modifies this
      ensures fullTextSearch == v
    {
      fullTextSearch := v;
    }
  }

  /** ActiveScaffold::DataStructures::ActionColumns: the column names and the action
      configuration that owns them. */
  class ActionColumns {
    var names: seq<string>
    var action: SearchConfig?

    constructor (names: seq<string>)
      ensures this.names == names && action == null
    {
      this.names := names;
      action := null;
    }
  }

  class SearchConfig {
    /** `self.crud_type = :read` */
    const crudType: CrudType
    /** `@core.columns` */
    const core: seq<Column>
    /** `@columns`: null until first read or first assignment */
    var columns: ActionColumns?
    var fullTextSearch: bool

    constructor (core: seq<Column>, defaults: SearchDefaults)
      ensures this.core == core && columns == null && crudType == ReadCrud
      ensures fullTextSearch == defaults.fullTextSearch
    {
      this.core := core;
      crudType := ReadCrud;
      columns := null;
      fullTextSearch := defaults.fullTextSearch;
    }

    /** `attr_writer :full_text_search`: the instance value, independent of the class one */
    method SetFullTextSearch(v: bool)
      modifies this
      ensures fullTextSearch == v && columns == old(columns)
    {
      fullTextSearch := v;
    }

    /** `columns=(val)` */
    method SetColumns(val: seq<string>)
      modifies this
      ensures columns != null && fresh(columns)
      ensures columns.names == val && columns.action == this
      ensures fullTextSearch == old(fullTextSearch)
    {
      var ac := new ActionColumns(val);
      ac.action := this;
      columns := ac;
    }

    /** `columns`: computes the default list on the first read only; once `@columns` is set
        every later read returns that same object. A NoMethodError leaves `@columns` unset. */
    method Columns() returns (r: Option<ActionColumns>)
      modifies this
      ensures fullTextSearch == old(fullTextSearch)
      ensures old(columns) != null ==> columns == old(columns) && r.Some? && r.value == columns
      ensures old(columns) == null ==>
        match DefaultSearchColumns(core)
        case NoMethodError => columns == null && r == None
        case Names(ns) => columns != null && fresh(columns) && r.Some? && r.value == columns
                          && columns.names == ns && columns.action == this
    {
      if columns == null {
        var d := DefaultSearchColumns(core);
        if d.NoMethodError? {
          return None;
        }
        SetColumns(d.names);
      }
      r := Some(columns);
    }
  }
}
