// Small helpers of the viewer: HTML escaping for text put into markup,
// the brace scanner that splits a style sheet into its top-level rules,
// the pagination and sort toggle of tables, dotted path parsing and
// comparison, the DOM ids of rendered fields, and the depth tracking that
// picks the variables a path expression asks for.

/** `escapeHTML`: each of `&<>"'{};:` becomes its character entity. */
module Escaping {
  import opened Wrappers
  import opened Text

  /** The characters that are replaced, in the order the decoder tries their entities. */
  const Specials: string := "&<>\"'{}:;"

  function Entity(c: char): string
  {
    match c
    case '&' => "&amp;"
    case '<' => "&lt;"
    case '>' => "&gt;"
    case '"' => "&quot;"
    case '\'' => "&#039;"
    case '{' => "&#123;"
    case '}' => "&#125;"
    case ':' => "&#58;"
    case ';' => "&#59;"
    case _ => [c]
  }

  function EscapeHtml(html: string): (r: string)
    ensures |r| >= |html|
    ensures forall i :: 0 <= i < |r| ==> r[i] !in "<>\"'{}:"
  {
    if html == [] then []
    else
      EntitySafe(html[0]);
      Entity(html[0]) + EscapeHtml(html[1..])
  }

  /** An entity is not empty and holds none of the characters escaping removes. */
  lemma EntitySafe(c: char)
    ensures |Entity(c)| >= 1
    ensures forall i :: 0 <= i < |Entity(c)| ==> Entity(c)[i] !in "<>\"'{}:"
  {
  }

  /** The first special character whose entity starts `t`, in the order of `cs`. */
  function EntityAt(t: string, cs: string): (r: Option<char>)
    ensures r.Some? ==> r.value in cs && StartsWith(t, Entity(r.value))
  {
    if cs == [] then None
    else if StartsWith(t, Entity(cs[0])) then Some(cs[0])
    else EntityAt(t, cs[1..])
  }

  /** The text an escaped string shows: every entity read back as its character. */
  function Unescape(t: string): string
    decreases |t|
  {
    if t == [] then []
    else
      var c := EntityAt(t, Specials);
      if c.Some? && c.value in Specials then
        assert |Entity(c.value)| > 0;
        [c.value] + Unescape(t[|Entity(c.value)|..])
      else [t[0]] + Unescape(t[1..])
  }

  /** Every entity starts with `&`, ends with its only `;`, and is told apart from the others. */
  predicate Shaped(e: string)
  {
    |e| >= 2 && e[0] == '&' && e[|e| - 1] == ';' && forall i :: 0 <= i < |e| - 1 ==> e[i] != ';'
  }

  lemma EntityShaped(c: char)
    requires c in Specials
    ensures Shaped(Entity(c))
  {
  }

  lemma EntityDistinct(c: char, d: char)
    requires c in Specials && d in Specials && c != d
    ensures Entity(c) != Entity(d)
  {
  }

  /** An entity followed by anything starts with no other entity. */
  lemma NoOtherEntity(c: char, d: char, u: string)
    requires c in Specials && d in Specials && c != d
    ensures !StartsWith(Entity(c) + u, Entity(d))
  {
    var e1 := Entity(c);
    var e2 := Entity(d);
    EntityShaped(c);
    EntityShaped(d);
    EntityDistinct(c, d);
    var t := e1 + u;
    if |t| >= |e2| {
      if |e2| < |e1| {
        assert t[..|e2|][|e2| - 1] == e1[|e2| - 1] != e2[|e2| - 1];
      } else if |e2| > |e1| {
        assert t[..|e2|][|e1| - 1] == e1[|e1| - 1] != e2[|e1| - 1];
      } else {
        assert t[..|e2|] == e1;
      }
    }
  }

  /** The decoder finds the entity an escaped character was written as. */
  lemma {:induction false} EntityFound(c: char, cs: string, u: string)
    requires c in cs && forall d :: d in cs ==> d in Specials
    ensures EntityAt(Entity(c) + u, cs) == Some(c)
  {
    var t := Entity(c) + u;
    assert StartsWith(t, Entity(c)) by {
      assert t[..|Entity(c)|] == Entity(c);
    }
    if cs[0] != c {
      NoOtherEntity(c, cs[0], u);
      EntityFound(c, cs[1..], u);
    }
  }

  /** Text that is not escaped starts with no entity. */
  lemma {:induction false} PlainNoEntity(c: char, cs: string, u: string)
    requires c !in Specials && forall d :: d in cs ==> d in Specials
    ensures EntityAt([c] + u, cs).None?
  {
    if cs != [] {
      EntityShaped(cs[0]);
      assert ([c] + u)[0] != '&';
      PlainNoEntity(c, cs[1..], u);
    }
  }

  /** Reading an escaped string back gives the original text: escaping loses nothing. */
  lemma {:induction false} UnescapeEscape(html: string)
    ensures Unescape(EscapeHtml(html)) == html
    decreases |html|
  {
    if html != [] {
      var c := html[0];
      var u := EscapeHtml(html[1..]);
      var t := Entity(c) + u;
      assert EscapeHtml(html) == t;
      if c in Specials {
        EntityFound(c, Specials, u);
        assert t[|Entity(c)|..] == u;
      } else {
        assert Entity(c) == [c];
        PlainNoEntity(c, Specials, u);
        assert t[1..] == u;
      }
      UnescapeEscape(html[1..]);
      assert html == [c] + html[1..];
    }
  }

  /** Different texts never escape to the same markup. */
  lemma EscapeInjective(a: string, b: string)
    requires EscapeHtml(a) == EscapeHtml(b)
    ensures a == b
  {
    UnescapeEscape(a);
    UnescapeEscape(b);
  }
}

/** `extractTopLevelRules`: a style sheet cut after every `}` that closes its outermost brace. */
module CssRules {
  import opened Text

  function Delta(c: char): int { if c == '{' then 1 else if c == '}' then -1 else 0 }

  /** The brace depth reached at position `upto` when counting from zero at `begin`. */
  function Level(css: string, begin: nat, upto: nat): int
    requires upto <= |css|
    decreases upto
  {
    if upto <= begin then 0 else Level(css, begin, upto - 1) + Delta(css[upto - 1])
  }

  /** Position `k` of `css` holds a `}` that brings the depth counted from `begin` back to zero. */
  predicate Closes(css: string, begin: nat, k: nat)
  {
    begin <= k < |css| && css[k] == '}' && Level(css, begin, k + 1) == 0
  }

  /** `css[begin..end]` is a top-level rule: it ends at the first `}` that closes what it opened. */
  predicate Rule(css: string, begin: nat, end: nat, rule: string)
  {
    begin < end <= |css| && Closes(css, begin, end - 1)
    && (forall k :: begin <= k < end - 1 ==> !Closes(css, begin, k))
    && rule == Trim(css[begin..end])
  }

  /** Where rule `i` starts: at the beginning, or right after the previous rule. */
  function Start(ends: seq<nat>, i: nat): nat
    requires i <= |ends|
  {
    if i == 0 then 0 else ends[i - 1]
  }

  /**
   * The scanner: the depth rises at `{` and falls at `}`, and a `}` that
   * brings it to zero ends a rule, which is trimmed. Beside the rules it
   * returns where each one ends; each rule starts where the previous one
   * ended, and after the last cut no further `}` closes.
   */
  method ExtractTopLevelRules(css: string) returns (rules: seq<string>, ends: seq<nat>)
    ensures |rules| == |ends|
    ensures forall i :: 0 <= i < |ends| ==> Rule(css, Start(ends, i), ends[i], rules[i])
    ensures forall k :: Start(ends, |ends|) <= k < |css| ==> !Closes(css, Start(ends, |ends|), k)
  {
    hide Level, Closes, Rule, Trim;
    var cursor := 0;
    var start := 0;
    var level := 0;
    LevelEmpty(css, 0);
    rules := [];
    ends := [];
    while cursor < |css|
      invariant 0 <= start <= cursor <= |css|
      invariant |rules| == |ends| && start == Start(ends, |ends|)
      invariant level == Level(css, start, cursor)
      invariant forall k :: start <= k < cursor ==> !Closes(css, start, k)
      invariant forall i :: 0 <= i < |ends| ==> ends[i] <= start
      invariant forall i :: 0 <= i < |ends| ==> Rule(css, Start(ends, i), ends[i], rules[i])
    {
      CloseAt(css, start, cursor, level);
      if css[cursor] == '{' {
        level := level + 1;
      }
      if css[cursor] == '}' {
        level := level - 1;
        if level == 0 {
          Append(css, rules, ends, cursor + 1, Trim(css[start..cursor + 1]));
          rules := rules + [Trim(css[start..cursor + 1])];
          ends := ends + [cursor + 1];
          start := cursor + 1;
        }
      }
      cursor := cursor + 1;
      LevelEmpty(css, start);
    }
  }

  lemma LevelEmpty(css: string, begin: nat)
    requires begin <= |css|
    ensures Level(css, begin, begin) == 0
  {
  }

  /** A rule found where the last one ended extends the list of rules. */
  lemma Append(css: string, rules: seq<string>, ends: seq<nat>, end: nat, rule: string)
    requires |rules| == |ends|
    requires forall i :: 0 <= i < |ends| ==> ends[i] <= Start(ends, |ends|)
    requires forall i :: 0 <= i < |ends| ==> Rule(css, Start(ends, i), ends[i], rules[i])
    requires Start(ends, |ends|) < end && Rule(css, Start(ends, |ends|), end, rule)
    ensures forall i :: 0 <= i < |ends| + 1 ==> (ends + [end])[i] <= end
    ensures forall i :: 0 <= i < |ends| + 1 ==>
      Rule(css, Start(ends + [end], i), (ends + [end])[i], (rules + [rule])[i])
  {
    hide Rule;
    var ends' := ends + [end];
    forall i | 0 <= i < |ends| + 1 ensures Rule(css, Start(ends', i), ends'[i], (rules + [rule])[i]) {
      if i < |ends| {
        assert Start(ends', i) == Start(ends, i);
        assert ends'[i] == ends[i] && (rules + [rule])[i] == rules[i];
      } else {
        assert Start(ends', i) == Start(ends, |ends|);
      }
    }
  }

  /** One more character: the depth moves by its delta, and a cut there ends a rule. */
  lemma CloseAt(css: string, start: nat, cursor: nat, level: int)
    requires start <= cursor < |css| && level == Level(css, start, cursor)
    requires forall k :: start <= k < cursor ==> !Closes(css, start, k)
    ensures Level(css, start, cursor + 1) == level + Delta(css[cursor])
    ensures Closes(css, start, cursor) <==> css[cursor] == '}' && level - 1 == 0
    ensures Closes(css, start, cursor) ==> Rule(css, start, cursor + 1, Trim(css[start..cursor + 1]))
  {
  }

}

/** The table's pagination and its sort-toggle cycle. */
module TableView {
  import opened Wrappers

  /**
   * `chunk(array, size)`, the `reduce` read item by item: an item whose
   * index is a multiple of `size` opens a new page, any other joins the
   * last page.
   */
  function Chunk<T>(xs: seq<T>, size: nat): (pages: seq<seq<T>>)
    requires size > 0
    ensures xs == [] <==> pages == []
  {
    if xs == [] then []
    else
      var pages := Chunk(xs[..|xs| - 1], size);
      var x := xs[|xs| - 1];
      var index := |xs| - 1;
      if index % size == 0 then pages + [[x]]
      else pages[..|pages| - 1] + [pages[|pages| - 1] + [x]]
  }

  function Flatten<T>(pages: seq<seq<T>>): seq<T>
  {
    if pages == [] then [] else Flatten(pages[..|pages| - 1]) + pages[|pages| - 1]
  }

  /** Euclidean division is unique: a quotient and remainder in range are the ones `/` and `%` give. */
  lemma ModUnique(n: int, size: int, q: int, r: int)
    requires size > 0 && 0 <= r < size && n == q * size + r
    ensures n / size == q && n % size == r
  {
    var q' := n / size;
    var r' := n % size;
    assert n == q' * size + r';
    assert (q - q') * size == r' - r;
    if q - q' >= 1 {
      assert false;
    } else if q - q' <= -1 {
      assert false;
    }
  }

  /** From one index to the next, the remainder grows by one or wraps around to zero. */
  lemma ModStep(n: nat, size: nat)
    requires n >= 1 && size >= 1
    ensures n % size == 0 ==> (n - 1) % size == size - 1
    ensures n % size != 0 ==> n % size == (n - 1) % size + 1
  {
    var q := (n - 1) / size;
    var r := (n - 1) % size;
    if r == size - 1 {
      ModUnique(n, size, q + 1, 0);
    } else {
      ModUnique(n, size, q, r + 1);
    }
  }

  /**
   * The pages, read in order, are the rows; every page but the last is
   * full and the last holds the remaining one to `size` rows.
   */
  lemma {:induction false} ChunkPages<T>(xs: seq<T>, size: nat)
    requires size > 0
    ensures var pages := Chunk(xs, size);
      && Flatten(pages) == xs
      && (forall i :: 0 <= i < |pages| - 1 ==> |pages[i]| == size)
      && (xs != [] ==> |pages[|pages| - 1]| == (|xs| - 1) % size + 1)
  {
    FlattenNil<T>();
    hide *;
    if xs != [] {
      var init := xs[..|xs| - 1];
      ChunkPages(init, size);
      ChunkStep(xs, size);
      var before := Chunk(init, size);
      var pages := Chunk(xs, size);
      var x := xs[|xs| - 1];
      var n := |xs| - 1;
      assert xs == init + [x];
      if n > 0 {
        ModStep(n, size);
      }
      if n % size == 0 {
        FlattenPush(before, [x]);
        assert forall i :: 0 <= i < |before| ==> pages[i] == before[i];
      } else {
        var last := before[|before| - 1];
        var full := before[..|before| - 1];
        assert before == full + [last];
        FlattenPush(full, last);
        FlattenPush(full, last + [x]);
        assert forall i :: 0 <= i < |full| ==> pages[i] == before[i];
      }
    }
  }

  /** One more row starts a page when its index is a multiple of the size, and otherwise goes on the last page. */
  lemma ChunkStep<T>(xs: seq<T>, size: nat)
    requires size > 0 && xs != []
    ensures var before, x := Chunk(xs[..|xs| - 1], size), xs[|xs| - 1];
      && ((|xs| - 1) % size == 0 ==> Chunk(xs, size) == before + [[x]])
      && ((|xs| - 1) % size != 0 ==> before != [] && Chunk(xs, size) == before[..|before| - 1] + [before[|before| - 1] + [x]])
  {
  }

  lemma FlattenNil<T>()
    ensures Flatten<T>([]) == []
  {
  }

  lemma FlattenPush<T>(pages: seq<seq<T>>, p: seq<T>)
    ensures Flatten(pages + [p]) == Flatten(pages) + p
  {
    assert (pages + [p])[..|pages|] == pages;
  }

  /** The number of pages is the number of rows divided by the page size, rounded up. */
  lemma {:induction false} ChunkCount<T>(xs: seq<T>, size: nat)
    requires size > 0
    ensures |Chunk(xs, size)| == (|xs| + size - 1) / size
  {
    if xs != [] {
      ChunkCount(xs[..|xs| - 1], size);
      ChunkGrows(xs, size);
      CeilStep(|xs| - 1, size);
    }
  }

  /** Rounding up after one more row adds one exactly when the row's index is a multiple of the size. */
  lemma CeilStep(n: nat, size: nat)
    requires size > 0
    ensures (n + 1 + size - 1) / size == (n + size - 1) / size + (if n % size == 0 then 1 else 0)
  {
    var q := n / size;
    var r := n % size;
    assert n == q * size + r;
    assert (q + 1) * size == q * size + size;
    if r == 0 {
      ModUnique(n + size - 1, size, q, size - 1);
      ModUnique(n + size, size, q + 1, 0);
    } else {
      ModUnique(n + size - 1, size, q + 1, r - 1);
      ModUnique(n + size, size, q + 1, r);
    }
  }

  /** One more row opens a page exactly when its index is a multiple of the size. */
  lemma ChunkGrows<T>(xs: seq<T>, size: nat)
    requires size > 0 && xs != []
    ensures |Chunk(xs, size)| == |Chunk(xs[..|xs| - 1], size)| + (if (|xs| - 1) % size == 0 then 1 else 0)
  {
  }

  datatype Direction = Asc | Desc

  datatype SortBy = SortBy(key: string, direction: Direction)

  /** `toggleSortBy(key)`: another column sorts ascending, then descending, then not at all. */
  function ToggleSortBy(current: Option<SortBy>, key: string): (r: Option<SortBy>)
    ensures (current.None? || current.value.key != key) ==> r == Some(SortBy(key, Asc))
    ensures current == Some(SortBy(key, Asc)) ==> r == Some(SortBy(key, Desc))
    ensures current == Some(SortBy(key, Desc)) ==> r.None?
  {
    if current.None? || current.value.key != key then Some(SortBy(key, Asc))
    else if current.value.direction == Desc then None
    else Some(SortBy(key, Desc))
  }

  /** Clicking the same column three times comes back to where it started. */
  lemma ToggleCycle(current: Option<SortBy>, key: string)
    requires current.None? || current.value.key == key
    ensures ToggleSortBy(ToggleSortBy(ToggleSortBy(current, key), key), key) == current
  {
  }
}

/** `pathParse` and `pathsEqual`: dotted paths with numeric segments read as numbers. */
module PathParsing {
  import opened Wrappers
  import opened Text
  import TimeOfDay

  /** A segment is a number when `parseInt` reads one from it, else the text itself. */
  datatype PathKey = Name(name: string) | Number(i: int)

  function ParseKey(key: string): PathKey
  {
    var n := TimeOfDay.ParseInt(key);
    if n.None? then Name(key) else Number(n.value)
  }

  /** `pathParse`: no segments for an empty path, else one per dot-separated part. */
  function PathParse(path: string): (r: seq<PathKey>)
    ensures path == "" ==> r == []
    ensures path != "" ==> |r| == |Split(path, '.')|
    ensures path != "" ==> forall i :: 0 <= i < |r| ==> r[i] == ParseKey(Split(path, '.')[i])
  {
    if path == "" then []
    else
      var parts := Split(path, '.');
      seq(|parts|, i requires 0 <= i < |parts| => ParseKey(parts[i]))
  }

  /** `pathsEqual`: both paths given, of the same length, equal segment by segment. */
  predicate PathsEqual(a: Option<seq<PathKey>>, b: Option<seq<PathKey>>)
  {
    a.Some? && b.Some? && |a.value| == |b.value| && forall i :: 0 <= i < |a.value| ==> a.value[i] == b.value[i]
  }

  /** Two given paths are equal exactly when they hold the same segments; a missing path equals nothing. */
  lemma PathsEqualIff(a: Option<seq<PathKey>>, b: Option<seq<PathKey>>)
    ensures PathsEqual(a, b) <==> a.Some? && b.Some? && a.value == b.value
  {
  }

  /** The text of a segment, as `join('.')` writes it. */
  function KeyText(k: PathKey): string
  {
    match k
    case Name(n) => n
    case Number(i) => if i >= 0 then NatToString(i) else "-" + NatToString(-i)
  }

  /** A segment written out reads back as the same segment. */
  predicate Readable(k: PathKey)
  {
    match k
    case Name(n) => n != "" && '.' !in n && TimeOfDay.ParseInt(n).None?
    case Number(i) => i >= 0
  }

  /** A readable segment is written without a dot and not empty, and reads back as itself. */
  lemma KeyReadBack(k: PathKey)
    requires Readable(k)
    ensures KeyText(k) != "" && '.' !in KeyText(k) && ParseKey(KeyText(k)) == k
  {
    if k.Number? {
      var n: nat := k.i;
      NatToStringDigits(n);
      TimeOfDay.ParseIntDigits(NatToString(n));
      assert forall j :: 0 <= j < |NatToString(n)| ==> IsDigit(NatToString(n)[j]);
    }
  }

  /** Writing readable segments with dots and parsing the text gives the segments back. */
  lemma ParseJoined(keys: seq<PathKey>)
    requires |keys| >= 1 && forall i :: 0 <= i < |keys| ==> Readable(keys[i])
    ensures PathParse(Join(seq(|keys|, i requires 0 <= i < |keys| => KeyText(keys[i])), '.')) == keys
  {
    var texts := seq(|keys|, i requires 0 <= i < |keys| => KeyText(keys[i]));
    forall i | 0 <= i < |keys| ensures texts[i] != "" && '.' !in texts[i] && ParseKey(texts[i]) == keys[i] {
      KeyReadBack(keys[i]);
    }
    assert Split("", '.') == [""];
    hide *;
    SplitJoin(texts, '.');
  }
}

/** `prefixId`: the DOM id of a rendered field. */
module DomIds {
  import opened Wrappers
  import opened Text

  /** `_<index>` for each repetition index, in order. */
  function IndexSuffix(indexes: seq<nat>): string
  {
    if indexes == [] then "" else "_" + NatToString(indexes[0]) + IndexSuffix(indexes[1..])
  }

  /** `fjs-form`, the form id when there is one, the field id, then the repetition indexes. */
  function PrefixId(id: string, formId: Option<string>, indexes: seq<nat>): (r: string)
    ensures StartsWith(r, "fjs-form-")
  {
    var form := if formId.Some? && formId.value != "" then "-" + formId.value else "";
    "fjs-form" + form + "-" + id + IndexSuffix(indexes)
  }

  lemma DigitsNoUnderscore(n: nat)
    ensures forall j :: 0 <= j < |NatToString(n)| ==> NatToString(n)[j] != '_'
  {
    NatToStringDigits(n);
    assert forall j :: 0 <= j < |NatToString(n)| ==> IsDigit(NatToString(n)[j]);
  }

  /** In the digits of an index followed by the rest of the suffix, the first `_` is where the rest starts. */
  lemma UnderscoreAfter(digits: string, rest: string)
    requires forall j :: 0 <= j < |digits| ==> digits[j] != '_'
    requires rest == [] || rest[0] == '_'
    ensures IndexOf(digits + rest, '_') == if rest == [] then -1 else |digits|
    ensures rest == [] ==> digits + rest == digits
  {
    var t := digits + rest;
    assert t[..|digits|] == digits;
    if rest != [] {
      assert t[|digits|] == '_';
    } else {
      assert t == digits;
    }
  }

  /** The suffix of a non-empty run of indexes: `_`, the first index, the suffix of the rest. */
  lemma SuffixStep(xs: seq<nat>)
    requires xs != []
    ensures IndexSuffix(xs) == "_" + (NatToString(xs[0]) + IndexSuffix(xs[1..]))
    ensures IndexSuffix(xs[1..]) == [] || IndexSuffix(xs[1..])[0] == '_'
  {
    assert "_" + NatToString(xs[0]) + IndexSuffix(xs[1..]) == "_" + (NatToString(xs[0]) + IndexSuffix(xs[1..]));
  }

  /** Equal suffixes start with the same index and go on with equal suffixes. */
  lemma SuffixHead(xs: seq<nat>, ys: seq<nat>)
    requires xs != [] && ys != [] && IndexSuffix(xs) == IndexSuffix(ys)
    ensures xs[0] == ys[0] && IndexSuffix(xs[1..]) == IndexSuffix(ys[1..])
  {
    var a := NatToString(xs[0]);
    var b := NatToString(ys[0]);
    var ra := IndexSuffix(xs[1..]);
    var rb := IndexSuffix(ys[1..]);
    SuffixStep(xs);
    SuffixStep(ys);
    DigitsNoUnderscore(xs[0]);
    DigitsNoUnderscore(ys[0]);
    hide *;
    DropUnderscore(a + ra);
    DropUnderscore(b + rb);
    SplitAtUnderscore(a, ra, b, rb);
    NatToStringInjective(xs[0], ys[0]);
  }

  lemma DropUnderscore(t: string)
    ensures ("_" + t)[1..] == t
  {
  }

  /** Digits followed by a suffix split at the first `_`, so equal texts have equal parts. */
  lemma SplitAtUnderscore(a: string, ra: string, b: string, rb: string)
    requires forall j :: 0 <= j < |a| ==> a[j] != '_'
    requires forall j :: 0 <= j < |b| ==> b[j] != '_'
    requires ra == [] || ra[0] == '_'
    requires rb == [] || rb[0] == '_'
    requires a + ra == b + rb
    ensures a == b && ra == rb
  {
    UnderscoreAfter(a, ra);
    UnderscoreAfter(b, rb);
    assert |a| == |b|;
    assert a == (a + ra)[..|a|];
    assert b == (b + rb)[..|b|];
    assert ra == (a + ra)[|a|..];
    assert rb == (b + rb)[|b|..];
  }

  /** The suffix of indexes can be read back: different indexes give different suffixes. */
  lemma {:induction false} IndexSuffixInjective(xs: seq<nat>, ys: seq<nat>)
    requires IndexSuffix(xs) == IndexSuffix(ys)
    ensures xs == ys
    decreases |xs|
  {
    if xs != [] && ys != [] {
      SuffixHead(xs, ys);
      IndexSuffixInjective(xs[1..], ys[1..]);
      assert xs == [xs[0]] + xs[1..];
      assert ys == [ys[0]] + ys[1..];
    } else if xs != [] {
      SuffixStep(xs);
    } else if ys != [] {
      SuffixStep(ys);
    }
  }

  /** Repetitions of one field in one form get distinct DOM ids. */
  lemma PrefixIdInjective(id: string, formId: Option<string>, xs: seq<nat>, ys: seq<nat>)
    requires PrefixId(id, formId, xs) == PrefixId(id, formId, ys)
    ensures xs == ys
  {
    var form := if formId.Some? && formId.value != "" then "-" + formId.value else "";
    var p := "fjs-form" + form + "-" + id;
    assert PrefixId(id, formId, xs) == p + IndexSuffix(xs);
    assert PrefixId(id, formId, ys) == p + IndexSuffix(ys);
    assert IndexSuffix(xs) == (p + IndexSuffix(xs))[|p|..];
    assert IndexSuffix(ys) == (p + IndexSuffix(ys))[|p|..];
    IndexSuffixInjective(xs, ys);
  }
}

/**
 * `_smartExtractVariableNames`: following the accessors of a path expression
 * from the expression's depth, the names read where the depth passes from
 * the outer context (-1) to a variable (0) are the variables it asks for.
 * Special accessors such as `parent` may move by several offsets at once.
 */
module VariableNames {
  import opened Wrappers

  /** The depth before and after the latest accessor; `previous` is null at the start. */
  datatype DepthInfo = DepthInfo(previous: Option<int>, current: int)

  /** `specialDepthAccessors`: the offsets each special keyword may move by. */
  type Special = map<string, seq<int>>

  /** Every depth moved on by `offset`. */
  function Shift(infos: seq<DepthInfo>, offset: int): (r: seq<DepthInfo>)
    ensures |r| == |infos|
    ensures forall i :: 0 <= i < |r| ==> r[i] == DepthInfo(Some(infos[i].current), infos[i].current + offset)
  {
    seq(|infos|, i requires 0 <= i < |infos| => DepthInfo(Some(infos[i].current), infos[i].current + offset))
  }

  /** The `reduce` over the offsets: every depth moved by the first offset, then by the second, and so on. */
  function Expand(infos: seq<DepthInfo>, offsets: seq<int>): seq<DepthInfo>
  {
    if offsets == [] then [] else Expand(infos, offsets[..|offsets| - 1]) + Shift(infos, offsets[|offsets| - 1])
  }

  /** The `filter` that drops depths above the outer context. */
  function InBounds(infos: seq<DepthInfo>): (r: seq<DepthInfo>)
    ensures forall d :: d in r <==> d in infos && d.current >= -1
  {
    if infos == [] then []
    else InBounds(infos[..|infos| - 1]) + (if infos[|infos| - 1].current >= -1 then [infos[|infos| - 1]] else [])
  }

  /** The depths after one accessor. */
  function Step(infos: seq<DepthInfo>, accessor: string, special: Special): seq<DepthInfo>
  {
    if accessor in special then InBounds(Expand(infos, special[accessor])) else Shift(infos, 1)
  }

  /** The depths after a run of accessors. */
  function DepthsAfter(initialDepth: int, accessors: seq<string>, special: Special): seq<DepthInfo>
  {
    if accessors == [] then [DepthInfo(None, initialDepth - 1)]
    else Step(DepthsAfter(initialDepth, accessors[..|accessors| - 1], special), accessors[|accessors| - 1], special)
  }

  /** Some reading passes from the outer context to a variable. */
  predicate Requests(infos: seq<DepthInfo>)
  {
    exists i :: 0 <= i < |infos| && infos[i].previous == Some(-1) && infos[i].current == 0
  }

  /** Right after accessor `i`, some reading has just entered depth 0 from -1. */
  predicate RequestsAt(initialDepth: int, accessors: seq<string>, i: nat, special: Special)
    requires i < |accessors|
  {
    Requests(DepthsAfter(initialDepth, accessors[..i + 1], special))
  }

  /** The names the expression asks for: the accessors right after which a reading enters a variable. */
  ghost function Requested(initialDepth: int, accessors: seq<string>, special: Special): set<string>
  {
    set i | 0 <= i < |accessors| && RequestsAt(initialDepth, accessors, i, special) :: accessors[i]
  }

  method SmartExtractVariableNames(accessors: seq<string>, initialDepth: int, special: Special)
    returns (variables: set<string>)
    ensures variables == Requested(initialDepth, accessors, special)
  {
    var infos := [DepthInfo(None, initialDepth - 1)];
    variables := {};
    var i := 0;
    while i < |accessors|
      invariant 0 <= i <= |accessors|
      invariant infos == DepthsAfter(initialDepth, accessors[..i], special)
      invariant variables == Requested(initialDepth, accessors[..i], special)
    {
      var accessor := accessors[i];
      if accessor in special {
        var offsets := special[accessor];
        var expanded := [];
        for k := 0 to |offsets|
          invariant expanded == Expand(infos, offsets[..k])
        {
          assert offsets[..k + 1][..k] == offsets[..k];
          expanded := expanded + Shift(infos, offsets[k]);
        }
        assert offsets[..|offsets|] == offsets;
        infos := InBounds(expanded);
      } else {
        infos := Shift(infos, 1);
      }
      assert accessors[..i + 1][..i] == accessors[..i];
      RequestedStep(initialDepth, accessors, i, special);
      if Requests(infos) {
        variables := variables + {accessor};
      }
      i := i + 1;
    }
    assert accessors[..|accessors|] == accessors;
  }

  /** A reading after accessor `j` depends only on the accessors up to `j`. */
  lemma PrefixRequests(initialDepth: int, accessors: seq<string>, i: nat, special: Special)
    requires i < |accessors|
    ensures var a, b := accessors[..i + 1], accessors[..i];
      && |a| == i + 1 && |b| == i && a[i] == accessors[i]
      && (forall j :: 0 <= j < i ==> a[j] == b[j] && RequestsAt(initialDepth, a, j, special) == RequestsAt(initialDepth, b, j, special))
      && RequestsAt(initialDepth, a, i, special) == RequestsAt(initialDepth, accessors, i, special)
  {
    var a := accessors[..i + 1];
    var b := accessors[..i];
    forall j | 0 <= j < i
      ensures RequestsAt(initialDepth, a, j, special) == RequestsAt(initialDepth, b, j, special)
    {
      assert a[..j + 1] == b[..j + 1];
    }
    assert a[..i + 1] == accessors[..i + 1];
  }

  /** Reading one more accessor adds it to the variables exactly when a reading enters depth 0 right after it. */
  lemma RequestedStep(initialDepth: int, accessors: seq<string>, i: nat, special: Special)
    requires i < |accessors|
    ensures Requested(initialDepth, accessors[..i + 1], special) ==
      Requested(initialDepth, accessors[..i], special)
      + (if RequestsAt(initialDepth, accessors, i, special) then {accessors[i]} else {})
  {
    var a := accessors[..i + 1];
    var b := accessors[..i];
    PrefixRequests(initialDepth, accessors, i, special);
    hide *;
    var extra := if RequestsAt(initialDepth, accessors, i, special) then {accessors[i]} else {};
    forall x | x in Requested(initialDepth, a, special)
      ensures x in Requested(initialDepth, b, special) + extra
    {
      var j :| 0 <= j < i + 1 && RequestsAt(initialDepth, a, j, special) && a[j] == x;
      if j < i {
        assert b[j] == x;
      }
    }
    forall x | x in Requested(initialDepth, b, special) + extra
      ensures x in Requested(initialDepth, a, special)
    {
      if x in Requested(initialDepth, b, special) {
        var j :| 0 <= j < i && RequestsAt(initialDepth, b, j, special) && b[j] == x;
        assert a[j] == x;
      } else {
        assert a[i] == x;
      }
    }
  }

  /**
   * Without special accessors every reading moves one level down, so the
   * only variable is the accessor that reaches depth 0: the one at position
   * `-initialDepth`, when there is one.
   */
  lemma NoSpecialAccessors(initialDepth: int, accessors: seq<string>, special: Special)
    requires forall i :: 0 <= i < |accessors| ==> accessors[i] !in special
    ensures Requested(initialDepth, accessors, special) ==
      if 0 <= -initialDepth < |accessors| then {accessors[-initialDepth]} else {}
  {
    forall i | 0 <= i < |accessors|
      ensures RequestsAt(initialDepth, accessors, i, special) <==> i == -initialDepth
    {
      var prefix := accessors[..i + 1];
      PlainDepths(initialDepth, prefix, special);
      var infos := DepthsAfter(initialDepth, prefix, special);
      assert infos == [DepthInfo(Some(initialDepth - 1 + i), initialDepth + i)];
      if i == -initialDepth {
        assert infos[0].previous == Some(-1) && infos[0].current == 0;
      }
    }
    hide RequestsAt;
    var expected := if 0 <= -initialDepth < |accessors| then {accessors[-initialDepth]} else {};
    forall x | x in Requested(initialDepth, accessors, special) ensures x in expected {
      var j :| 0 <= j < |accessors| && RequestsAt(initialDepth, accessors, j, special) && accessors[j] == x;
    }
    if 0 <= -initialDepth < |accessors| {
      assert RequestsAt(initialDepth, accessors, -initialDepth, special);
    }
  }

  /** After `n` plain accessors there is one reading, at depth `initialDepth - 1 + n`. */
  lemma {:induction false} PlainDepths(initialDepth: int, accessors: seq<string>, special: Special)
    requires forall i :: 0 <= i < |accessors| ==> accessors[i] !in special
    ensures DepthsAfter(initialDepth, accessors, special) ==
      [DepthInfo(if accessors == [] then None else Some(initialDepth - 2 + |accessors|), initialDepth - 1 + |accessors|)]
    decreases |accessors|
  {
    if accessors != [] {
      PlainDepths(initialDepth, accessors[..|accessors| - 1], special);
    }
  }

  /** After a special accessor no reading is above the outer context. */
  lemma SpecialInBounds(infos: seq<DepthInfo>, accessor: string, special: Special)
    requires accessor in special
    ensures forall d :: d in Step(infos, accessor, special) ==> d.current >= -1
  {
  }
}
