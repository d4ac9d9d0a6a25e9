/**
 The route inventory of the capability registry, and the fact that no request
 path is claimed by two of its templates.
 */
module Registry {
  import opened Text
  import opened Routes

  /** The three shapes of registered templates: `/name`, `/first/second` and the
      workspace tabs `/sites/{placeholder}/tab`. */
  datatype Template = Top(name: string) | Nested(first: string, second: string) | Tab(placeholder: string, tab: string) {
    function Parts(): (r: seq<string>)
      ensures |r| >= 1
    {
      match this
      case Top(name) => ["", name]
      case Nested(first, second) => ["", first, second]
      case Tab(placeholder, tab) => ["", "sites", placeholder, tab]
    }
  }

  const TOP_COUNT: nat := 28
  const NESTED_COUNT: nat := 7
  const TAB_COUNT: nat := 13
  const ROUTE_COUNT: nat := TOP_COUNT + NESTED_COUNT + TAB_COUNT

  function TopName(i: nat): string
    requires i < TOP_COUNT
  {
    match i
    case 0 => ""
    case 1 => "sites"
    case 2 => "files"
    case 3 => "ssl"
    case 4 => "databases"
    case 5 => "ftp"
    case 6 => "mail"
    case 7 => "webmail"
    case 8 => "dns"
    case 9 => "migrate"
    case 10 => "terminal"
    case 11 => "security"
    case 12 => "monitoring"
    case 13 => "fleet"
    case 14 => "logs"
    case 15 => "backups"
    case 16 => "previews"
    case 17 => "status-page"
    case 18 => "audit"
    case 19 => "cron"
    case 20 => "services"
    case 21 => "software"
    case 22 => "marketplace"
    case 23 => "plugins"
    case 24 => "docker"
    case 25 => "registry"
    case 26 => "users"
    case _ => "settings"
  }

  function NestedFirst(i: nat): string
    requires i < NESTED_COUNT
  {
    match i
    case 0 => "security"
    case 1 => "monitoring"
    case 2 => "container"
    case 3 => "registry"
    case 4 => "admin"
    case 5 => "sites"
    case _ => "ssl"
  }

  function NestedSecond(i: nat): string
    requires i < NESTED_COUNT
  {
    match i
    case 0 => "findings"
    case 1 => "views"
    case 2 => "quota"
    case 3 => "credentials"
    case 4 => "branding"
    case 5 => "{id}"
    case _ => "{domain}"
  }

  function TabName(i: nat): string
    requires i < TAB_COUNT
  {
    match i
    case 0 => "domains"
    case 1 => "runtime"
    case 2 => "files"
    case 3 => "http"
    case 4 => "waf"
    case 5 => "logs"
    case 6 => "backups"
    case 7 => "staging"
    case 8 => "previews"
    case 9 => "cache"
    case 10 => "ftp"
    case 11 => "webdav"
    case _ => "collaborators"
  }

  function TabPlaceholder(i: nat): string
    requires i < TAB_COUNT
  {
    if i == 2 then "{site_id}" else "{id}"
  }

  /** Registry entry `i`, the entries of each shape in registry order. */
  function Registered(i: nat): Template
    requires i < ROUTE_COUNT
  {
    if i < TOP_COUNT then Top(TopName(i))
    else if i < TOP_COUNT + NESTED_COUNT then Nested(NestedFirst(i - TOP_COUNT), NestedSecond(i - TOP_COUNT))
    else
      var j := i - TOP_COUNT - NESTED_COUNT;
      Tab(TabPlaceholder(j), TabName(j))
  }

  function Route(i: nat): string
    requires i < ROUTE_COUNT
  {
    Join(Registered(i).Parts(), "/")
  }

  // ---------------------------------------------------------------- telling names apart

  /** Length, first and third character: enough to tell the registered names apart. */
  datatype Mark = Mark(length: nat, first: char, third: char)

  function MarkOf(s: string): Mark {
    if |s| < 3 then Mark(|s|, ' ', ' ') else Mark(|s|, s[0], s[2])
  }

  function TopMark(i: nat): Mark
    requires i < TOP_COUNT
  {
    match i
    case 0 => Mark(0, ' ', ' ')
    case 1 => Mark(5, 's', 't')
    case 2 => Mark(5, 'f', 'l')
    case 3 => Mark(3, 's', 'l')
    case 4 => Mark(9, 'd', 't')
    case 5 => Mark(3, 'f', 'p')
    case 6 => Mark(4, 'm', 'i')
    case 7 => Mark(7, 'w', 'b')
    case 8 => Mark(3, 'd', 's')
    case 9 => Mark(7, 'm', 'g')
    case 10 => Mark(8, 't', 'r')
    case 11 => Mark(8, 's', 'c')
    case 12 => Mark(10, 'm', 'n')
    case 13 => Mark(5, 'f', 'e')
    case 14 => Mark(4, 'l', 'g')
    case 15 => Mark(7, 'b', 'c')
    case 16 => Mark(8, 'p', 'e')
    case 17 => Mark(11, 's', 'a')
    case 18 => Mark(5, 'a', 'd')
    case 19 => Mark(4, 'c', 'o')
    case 20 => Mark(8, 's', 'r')
    case 21 => Mark(8, 's', 'f')
    case 22 => Mark(11, 'm', 'r')
    case 23 => Mark(7, 'p', 'u')
    case 24 => Mark(6, 'd', 'c')
    case 25 => Mark(8, 'r', 'g')
    case 26 => Mark(5, 'u', 'e')
    case _ => Mark(8, 's', 't')
  }

  function NestedMark(i: nat): Mark
    requires i < NESTED_COUNT
  {
    match i
    case 0 => Mark(8, 's', 'c')
    case 1 => Mark(10, 'm', 'n')
    case 2 => Mark(9, 'c', 'n')
    case 3 => Mark(8, 'r', 'g')
    case 4 => Mark(5, 'a', 'm')
    case 5 => Mark(5, 's', 't')
    case _ => Mark(3, 's', 'l')
  }

  function TabMark(i: nat): Mark
    requires i < TAB_COUNT
  {
    match i
    case 0 => Mark(7, 'd', 'm')
    case 1 => Mark(7, 'r', 'n')
    case 2 => Mark(5, 'f', 'l')
    case 3 => Mark(4, 'h', 't')
    case 4 => Mark(3, 'w', 'f')
    case 5 => Mark(4, 'l', 'g')
    case 6 => Mark(7, 'b', 'c')
    case 7 => Mark(7, 's', 'a')
    case 8 => Mark(8, 'p', 'e')
    case 9 => Mark(5, 'c', 'c')
    case 10 => Mark(3, 'f', 'p')
    case 11 => Mark(6, 'w', 'b')
    case _ => Mark(13, 'c', 'l')
  }

  lemma {:induction false} TopNamesAreMarked(i: nat)
    requires i < TOP_COUNT
    ensures MarkOf(TopName(i)) == TopMark(i)
  {
  }

  lemma {:induction false} NestedNamesAreMarked(i: nat)
    requires i < NESTED_COUNT
    ensures MarkOf(NestedFirst(i)) == NestedMark(i)
  {
  }

  lemma {:induction false} TabNamesAreMarked(i: nat)
    requires i < TAB_COUNT
    ensures MarkOf(TabName(i)) == TabMark(i)
  {
  }

  lemma {:induction false} TopNamesDiffer(i: nat, j: nat)
    requires i < TOP_COUNT && j < TOP_COUNT && TopName(i) == TopName(j)
    ensures i == j
  {
    TopNamesAreMarked(i);
    TopNamesAreMarked(j);
    TopMarksDiffer(i, j);
  }

  lemma {:induction false} TopMarksDiffer(i: nat, j: nat)
    requires i < TOP_COUNT && j < TOP_COUNT
    ensures TopMark(i) == TopMark(j) ==> i == j
  {
  }

  lemma {:induction false} NestedNamesDiffer(i: nat, j: nat)
    requires i < NESTED_COUNT && j < NESTED_COUNT && NestedFirst(i) == NestedFirst(j)
    ensures i == j
  {
    NestedNamesAreMarked(i);
    NestedNamesAreMarked(j);
  }

  lemma {:induction false} TabNamesDiffer(i: nat, j: nat)
    requires i < TAB_COUNT && j < TAB_COUNT && TabName(i) == TabName(j)
    ensures i == j
  {
    TabNamesAreMarked(i);
    TabNamesAreMarked(j);
  }

  // ---------------------------------------------------------------- literal segments

  /** A literal segment: no slash and no brace. */
  predicate Literal(s: string) {
    '/' !in s && '{' !in s
  }

  lemma {:induction false} TopNameFronts(i: nat, k: nat)
    requires i < TOP_COUNT && k < |TopName(i)| && k < 4
    ensures TopName(i)[k] != '/' && TopName(i)[k] != '{'
  {
  }

  lemma {:induction false} TopNameBacks(i: nat, k: nat)
    requires i < TOP_COUNT && 4 <= k < |TopName(i)|
    ensures TopName(i)[k] != '/' && TopName(i)[k] != '{'
  {
  }

  lemma {:induction false} TopNamesAreLiteral(i: nat, name: string)
    requires i < TOP_COUNT && name == TopName(i)
    ensures Literal(name)
  {
    forall k | 0 <= k < |name|
      ensures name[k] != '/' && name[k] != '{'
    {
      if k < 4 {
        TopNameFronts(i, k);
      } else {
        TopNameBacks(i, k);
      }
    }
  }

  lemma {:induction false} NestedNamesAreLiteral(i: nat)
    requires i < NESTED_COUNT
    ensures Literal(NestedFirst(i)) && (Literal(NestedSecond(i)) || Placeholder(NestedSecond(i)))
  {
  }

  lemma {:induction false} TabNamesAreLiteral(i: nat)
    requires i < TAB_COUNT
    ensures Literal(TabName(i)) && Placeholder(TabPlaceholder(i))
  {
  }

  /** The segment that tells an entry from the others of its shape. */
  function Telling(t: Template): nat {
    if t.Tab? then 3 else 1
  }

  predicate WholeSegments(t: Template) {
    match t
    case Top(name) => Literal(name)
    case Nested(first, second) => Literal(first) && (Literal(second) || Placeholder(second))
    case Tab(placeholder, tab) => Placeholder(placeholder) && Literal(tab)
  }

  lemma {:induction false} TemplatesAreWhole(i: nat)
    requires i < ROUTE_COUNT
    ensures WholeSegments(Registered(i))
  {
    match Registered(i)
    case Top(name) => TopNamesAreLiteral(i, name);
    case Nested(_, _) => NestedNamesAreLiteral(i - TOP_COUNT);
    case Tab(_, _) => TabNamesAreLiteral(i - TOP_COUNT - NESTED_COUNT);
  }

  lemma {:induction false} PartsAreWhole(t: Template)
    requires WholeSegments(t)
    ensures Literal(t.Parts()[Telling(t)])
    ensures forall k :: 0 <= k < |t.Parts()| ==> Literal(t.Parts()[k]) || Placeholder(t.Parts()[k])
  {
  }

  lemma {:induction false} SegmentsAreWhole(i: nat)
    requires i < ROUTE_COUNT
    ensures var r := Registered(i).Parts();
            && Literal(r[Telling(Registered(i))])
            && forall k :: 0 <= k < |r| ==> Literal(r[k]) || Placeholder(r[k])
  {
    TemplatesAreWhole(i);
    PartsAreWhole(Registered(i));
  }

  lemma {:induction false} RouteHasItsParts(i: nat)
    requires i < ROUTE_COUNT
    ensures Segments(Route(i)) == Registered(i).Parts()
  {
    SegmentsAreWhole(i);
    SegmentsOfJoin(Registered(i).Parts());
  }

  lemma {:induction false} LiteralMatchesItself(t: string, p: string)
    requires Literal(t) && SegmentMatches(t, p)
    ensures p == t
  {
    PlaceholdersAreBraced();
  }

  lemma {:induction false} PlaceholdersAreBraced()
    ensures forall t :: Placeholder(t) ==> t != "" && t[0] == '{'
  {
  }

  // ---------------------------------------------------------------- the inventory

  /** Entries of one shape with the same telling segment are one entry. */
  lemma {:induction false} ToldApart(i: nat, j: nat)
    requires i < ROUTE_COUNT && j < ROUTE_COUNT
    requires |Registered(i).Parts()| == |Registered(j).Parts()|
    requires Registered(i).Parts()[Telling(Registered(i))] == Registered(j).Parts()[Telling(Registered(j))]
    ensures i == j
  {
    if i < TOP_COUNT {
      TopNamesDiffer(i, j);
    } else if i < TOP_COUNT + NESTED_COUNT {
      NestedNamesDiffer(i - TOP_COUNT, j - TOP_COUNT);
    } else {
      TabNamesDiffer(i - TOP_COUNT - NESTED_COUNT, j - TOP_COUNT - NESTED_COUNT);
    }
  }

  /** The inventory is unambiguous: no request path matches two entries. */
  lemma {:induction false} InventoryIsUnambiguous(path: string, i: nat, j: nat)
    requires i < ROUTE_COUNT && j < ROUTE_COUNT
    requires Matches(Route(i), path) && Matches(Route(j), path)
    ensures i == j
  {
    RouteHasItsParts(i);
    RouteHasItsParts(j);
    SegmentsAreWhole(i);
    SegmentsAreWhole(j);
    var ps, k, l := Segments(path), Telling(Registered(i)), Telling(Registered(j));
    LiteralMatchesItself(Registered(i).Parts()[k], ps[k]);
    LiteralMatchesItself(Registered(j).Parts()[l], ps[l]);
    ToldApart(i, j);
  }

  /** The smoke path of an entry is matched by that entry and by no other. */
  lemma {:induction false} SmokePathFindsItsEntry(i: nat, j: nat)
    requires i < ROUTE_COUNT && j < ROUTE_COUNT
    ensures Matches(Route(j), ConcretePath(Route(i))) <==> i == j
  {
    SegmentsAreWhole(i);
    RouteHasItsParts(i);
    var r := Registered(i).Parts();
    forall k | 0 <= k < |r|
      ensures CleanSegment(r[k])
    {
      if !Placeholder(r[k]) {
        BraceFreeMentionsNothing(r[k]);
      }
    }
    ConcretePathMatchesIff(Route(i));
    if Matches(Route(j), ConcretePath(Route(i))) {
      InventoryIsUnambiguous(ConcretePath(Route(i)), i, j);
    }
  }
}
