/** ActiveScaffold's List action: the eager includes gathered from the list columns, the
    pagination decision, the options handed to `find_page`, and the dispatch of `index`,
    `table`, `update_table`, `row` and `list` behind the read-authorization filter. */
module ScaffoldList {
  import opened Wrappers

  /** The value of a column's `includes`: nil, an association name, or an array that may
      nest further arrays and nils. */
  datatype IncludeValue = Nil | Name(name: string) | List(items: seq<IncludeValue>)

  /** Array#flatten on one element of the collected array: nested arrays are spliced in,
      nil stays an element. */
  function Flatten(v: IncludeValue): seq<Option<string>>
    decreases v, 1
  {
    match v
    case Nil => [None]
    case Name(n) => [Some(n)]
    case List(items) => FlattenAll(items)
  }

  function FlattenAll(vs: seq<IncludeValue>): seq<Option<string>>
    decreases vs, 0
  {
    if vs == [] then [] else Flatten(vs[0]) + FlattenAll(vs[1..])
  }

  /** Whether an include value mentions an association name at any depth. */
  predicate Mentions(v: IncludeValue, n: string)
  {
    match v
    case Nil => false
    case Name(m) => m == n
    case List(items) => exists k :: 0 <= k < |items| && Mentions(items[k], n)
  }

  lemma {:induction false} FlattenMentions(v: IncludeValue, n: string)
    ensures Some(n) in Flatten(v) <==> Mentions(v, n)
    decreases v, 1
  {
    match v
    case Nil =>
    case Name(m) =>
    case List(items) => FlattenAllMentions(items, n);
  }

  lemma {:induction false} FlattenAllMentions(vs: seq<IncludeValue>, n: string)
    ensures Some(n) in FlattenAll(vs) <==> exists k :: 0 <= k < |vs| && Mentions(vs[k], n)
    decreases vs, 0
  {
    if vs != [] {
      FlattenMentions(vs[0], n);
      FlattenAllMentions(vs[1..], n);
      assert FlattenAll(vs) == Flatten(vs[0]) + FlattenAll(vs[1..]);
      if exists k :: 0 <= k < |vs| && Mentions(vs[k], n) {
        var k :| 0 <= k < |vs| && Mentions(vs[k], n);
        if k > 0 { assert Mentions(vs[1..][k - 1], n); }
      }
      if exists k :: 0 <= k < |vs[1..]| && Mentions(vs[1..][k], n) {
        var k :| 0 <= k < |vs[1..]| && Mentions(vs[1..][k], n);
        assert Mentions(vs[k + 1], n);
      }
    }
  }

  predicate NoDuplicates<T(==)>(s: seq<T>)
  {
    forall i, j :: 0 <= i < j < |s| ==> s[i] != s[j]
  }

  /** Array#uniq: the first occurrence of each element, in order. */
  function Uniq<T(==)>(s: seq<T>): seq<T>
  {
    if s == [] then []
    else
      var u := Uniq(s[..|s| - 1]);
      if s[|s| - 1] in u then u else u + [s[|s| - 1]]
  }

  lemma {:induction false} UniqProperties<T>(s: seq<T>)
    ensures NoDuplicates(Uniq(s))
    ensures forall x :: x in Uniq(s) <==> x in s
    ensures |Uniq(s)| <= |s|
  {
    if s != [] {
      var init := s[..|s| - 1];
      UniqProperties(init);
      assert s == init + [s[|s| - 1]];
    }
  }

  /** Array#compact: the non-nil elements, in order. */
  function Compact<T(==)>(s: seq<Option<T>>): seq<T>
  {
    if s == [] then []
    else (if s[0].Some? then [s[0].value] else []) + Compact(s[1..])
  }

  lemma {:induction false} CompactProperties<T>(s: seq<Option<T>>)
    ensures forall x :: x in Compact(s) <==> Some(x) in s
    ensures NoDuplicates(s) ==> NoDuplicates(Compact(s))
  {
    if s != [] {
      CompactProperties(s[1..]);
      assert forall x :: Some(x) in s <==> Some(x) == s[0] || Some(x) in s[1..];
      if NoDuplicates(s) {
        assert NoDuplicates(s[1..]) by {
          forall i, j | 0 <= i < j < |s[1..]| ensures s[1..][i] != s[1..][j] {
            assert s[1..][i] == s[i + 1] && s[1..][j] == s[j + 1];
          }
        }
        if s[0].Some? {
          assert s[0] !in s[1..];
          assert s[0].value !in Compact(s[1..]);
          var c := Compact(s);
          assert c == [s[0].value] + Compact(s[1..]);
          forall i, j | 0 <= i < j < |c| ensures c[i] != c[j] {
            if i == 0 { assert c[j] in Compact(s[1..]); }
            else { assert c[i] == Compact(s[1..])[i - 1] && c[j] == Compact(s[1..])[j - 1]; }
          }
        }
      }
    }
  }

  /** `list.columns.collect{ |c| c.includes }.flatten.uniq.compact` */
  function IncludesForListColumns(columnIncludes: seq<IncludeValue>): seq<string>
  {
    Compact(Uniq(FlattenAll(columnIncludes)))
  }

  /** The include list names every association some list column mentions, and only those,
      with no duplicates and no nils. */
  lemma {:induction false} IncludesAreTheUnion(columnIncludes: seq<IncludeValue>)
    ensures NoDuplicates(IncludesForListColumns(columnIncludes))
    ensures forall n :: n in IncludesForListColumns(columnIncludes) <==>
      exists k :: 0 <= k < |columnIncludes| && Mentions(columnIncludes[k], n)
  {
    var f := FlattenAll(columnIncludes);
    UniqProperties(f);
    CompactProperties(Uniq(f));
    forall n ensures n in IncludesForListColumns(columnIncludes) <==>
      exists k :: 0 <= k < |columnIncludes| && Mentions(columnIncludes[k], n)
    {
      FlattenAllMentions(columnIncludes, n);
    }
  }

  // ---------------------------------------------------------------- pagination

  /** The two kinds of Ruby value the pagination test compares: Symbols and Strings. A
      Symbol is never equal to a String. */
  datatype RubyValue = Sym(s: string) | Str(s: string)

  /** `format.nil? ? accepts?(:html, :js) : [:html, :js].include?(format)` as written:
      `params[:format]` is a String, so the Symbol array never includes it. */
  function PaginateAsWritten(format: Option<string>, acceptsHtmlOrJs: bool): bool
  {
    if format.None? then acceptsHtmlOrJs else Str(format.value) in [Sym("html"), Sym("js")]
  }

  lemma PaginateAsWrittenIgnoresFormat(f: string, accepts: bool)
    ensures !PaginateAsWritten(Some(f), accepts)
  {
  }

  /** A request for "html" is not paginated by the test as written. */
  lemma HtmlFormatNotPaginatedAsWritten()
    ensures !PaginateAsWritten(Some("html"), true)
  {
  }

  /** The evident meaning: paginate for the html and js formats. */
  function Paginate(format: Option<string>, acceptsHtmlOrJs: bool): (r: bool)
    ensures format.None? ==> (r <==> acceptsHtmlOrJs)
    ensures format.Some? ==> (r <==> format.value == "html" || format.value == "js")
  {
    if format.None? then acceptsHtmlOrJs else format.value in ["html", "js"]
  }

  /** The two readings agree whenever no format parameter is given. */
  lemma PaginateReadingsAgreeWithoutFormat(accepts: bool)
    ensures Paginate(None, accepts) == PaginateAsWritten(None, accepts)
  {
  }

  /** The user's list settings (`active_scaffold_config.list.user`). */
  datatype UserSettings = UserSettings(sorting: seq<(string, string)>, perPage: nat, page: nat)

  datatype FindOptions = FindOptions(sorting: seq<(string, string)>, perPage: Option<nat>, page: Option<nat>)

  /** The options map: sorting always, per_page and page merged in only when paginating. */
  function ListOptions(user: UserSettings, paginate: bool): (o: FindOptions)
    ensures o.sorting == user.sorting
    ensures o.perPage.Some? <==> paginate
    ensures o.page.Some? <==> paginate
    ensures paginate ==> o.perPage.value == user.perPage && o.page.value == user.page
  {
    if paginate then FindOptions(user.sorting, Some(user.perPage), Some(user.page))
    else FindOptions(user.sorting, None, None)
  }

  // ---------------------------------------------------------------- the controller

  /** What `find_page` returns: the page's records (opaque here) and its number. */
  datatype Page<R> = Page(items: seq<R>, number: nat)

  datatype CrudType = CreateCrud | ReadCrud | UpdateCrud | DeleteCrud
  datatype ListAction = IndexAction | TableAction | UpdateTableAction | RowAction | ListOnlyAction
  datatype Format = Html | Js | Xml | Json | Yaml | OtherFormat

  datatype Response<R> =
    | Unauthorized
    | RenderList(layout: bool)
    | RenderListPartial
    | ReturnToMain
    | RenderListRecord(record: R)
    | RenderXml
    | RenderJson
    | RenderYaml
    | NotAcceptable

  /** A request as the actions see it. */
  datatype Request = Request(formatParam: Option<string>, respondAs: Format, acceptsHtmlOrJs: bool)

  /** `list_authorized?`: authorized_for?(:action => :read). */
  predicate ListAuthorized(granted: set<CrudType>) { ReadCrud in granted }

  /** Whether an action lists records (runs `do_list`) for a request allowed through. */
  predicate Lists(a: ListAction, f: Format)
  {
    a == IndexAction || a == TableAction || a == ListOnlyAction || (a == UpdateTableAction && f == Js)
  }

  class ListController<R> {
    var activeScaffoldJoins: seq<string>
    var page: Option<Page<R>>
    var records: seq<R>

    constructor (joins: seq<string>)
      ensures activeScaffoldJoins == joins && page == None && records == []
    {
      activeScaffoldJoins := joins;
      page := None;
      records := [];
    }

    /** `do_list` with the list columns' includes, the user's settings and `find_page`. */
    method DoList(columnIncludes: seq<IncludeValue>, user: UserSettings, req: Request,
                  findPage: FindOptions -> Page<R>)
      modifies this
      ensures activeScaffoldJoins == old(activeScaffoldJoins) + IncludesForListColumns(columnIncludes)
      ensures page == Some(findPage(ListOptions(user, Paginate(req.formatParam, req.acceptsHtmlOrJs))))
      ensures records == page.value.items
    {
      var includes := IncludesForListColumns(columnIncludes);
      activeScaffoldJoins := activeScaffoldJoins + includes;
      var options := ListOptions(user, false);
      var paginate := Paginate(req.formatParam, req.acceptsHtmlOrJs);
      if paginate {
        options := options.(perPage := Some(user.perPage), page := Some(user.page));
      }
      var p := findPage(options);
      page := Some(p);
      records := p.items;
    }

    /** One of the five actions behind `before_filter :list_authorized?`. For `row`, `found`
        is what `find_if_allowed(params[:id], :read)` returned. */
    method Handle(a: ListAction, granted: set<CrudType>, req: Request, columnIncludes: seq<IncludeValue>,
                  user: UserSettings, findPage: FindOptions -> Page<R>, found: R) returns (resp: Response<R>)
      modifies this
      ensures !ListAuthorized(granted) ==> resp == Unauthorized
      ensures ListAuthorized(granted) && Lists(a, req.respondAs) ==>
        activeScaffoldJoins == old(activeScaffoldJoins) + IncludesForListColumns(columnIncludes) &&
        page == Some(findPage(ListOptions(user, Paginate(req.formatParam, req.acceptsHtmlOrJs)))) &&
        records == page.value.items
      ensures !(ListAuthorized(granted) && Lists(a, req.respondAs)) ==>
        activeScaffoldJoins == old(activeScaffoldJoins) && page == old(page) && records == old(records)
      ensures ListAuthorized(granted) && a == UpdateTableAction ==>
        (req.respondAs == Js <==> resp == RenderListPartial) && (req.respondAs == Html <==> resp == ReturnToMain)
      ensures ListAuthorized(granted) && a == TableAction ==> resp == RenderList(false)
      ensures ListAuthorized(granted) && a == RowAction ==> resp == RenderListRecord(found)
      ensures ListAuthorized(granted) && (a == IndexAction || a == ListOnlyAction) ==>
        (req.respondAs == Html <==> resp == RenderList(true)) &&
        (req.respondAs == OtherFormat || req.respondAs == Js <==> resp == NotAcceptable)
    {
      if !ListAuthorized(granted) {
        return Unauthorized;
      }
      match a
      case IndexAction =>
        resp := List(columnIncludes, user, req, findPage);
      case ListOnlyAction =>
        resp := List(columnIncludes, user, req, findPage);
      case TableAction =>
        DoList(columnIncludes, user, req, findPage);
        resp := RenderList(false);
      case UpdateTableAction =>
        if req.respondAs == Js {
          DoList(columnIncludes, user, req, findPage);
          resp := RenderListPartial;
        } else if req.respondAs == Html {
          resp := ReturnToMain;
        } else {
          resp := NotAcceptable;
        }
      case RowAction =>
        resp := RenderListRecord(found);
    }

    /** `list`: lists, then responds by format. */
    method List(columnIncludes: seq<IncludeValue>, user: UserSettings, req: Request,
                findPage: FindOptions -> Page<R>) returns (resp: Response<R>)
      modifies this
      ensures activeScaffoldJoins == old(activeScaffoldJoins) + IncludesForListColumns(columnIncludes)
      ensures page == Some(findPage(ListOptions(user, Paginate(req.formatParam, req.acceptsHtmlOrJs))))
      ensures records == page.value.items
      ensures resp == ListResponse(req.respondAs)
    {
      DoList(columnIncludes, user, req, findPage);
      resp := ListResponse(req.respondAs);
    }
  }

  /** The `respond_to` of `list`. */
  function ListResponse<R>(f: Format): (r: Response<R>)
    ensures f == Html <==> r == RenderList(true)
    ensures r == NotAcceptable <==> f == Js || f == OtherFormat
  {
    match f
    case Html => RenderList(true)
    case Xml => RenderXml
    case Json => RenderJson
    case Yaml => RenderYaml
    case _ => NotAcceptable
  }
}
