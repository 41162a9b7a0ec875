/** The log page of the web front end: paging through the log list and the
    search-box suggestions built from the log entries the server returns. */
module Logs {
  import opened Wrappers
  import opened Text

  // ---------------------------------------------------------------------
  // Paging

  /** The page size (`useState(10)`, never changed). */
  const Limit := 10

  /** The page offset after "Anterior". */
  function PrevSkip(skip: int): (r: int)
    ensures r >= 0
    ensures skip >= 0 ==> r <= skip
    ensures r == 0 <==> skip <= Limit
    ensures skip > Limit ==> r == skip - Limit
  {
    if skip - Limit > 0 then skip - Limit else 0
  }

  /** The page offset after "Siguiente". */
  function NextSkip(skip: int, total: int): (r: int)
    ensures r == skip || r == skip + Limit
    ensures r != skip ==> r < total
  {
    if skip + Limit < total then skip + Limit else skip
  }

  /** "Siguiente" does nothing exactly when its button is disabled. */
  lemma NextDisabled(skip: int, total: int)
    ensures NextSkip(skip, total) == skip <==> skip + Limit >= total
  {
  }

  /** "Anterior" does nothing exactly when its button is disabled, for the
      offsets the page reaches. */
  lemma PrevDisabled(skip: int)
    requires skip >= 0
    ensures PrevSkip(skip) == skip <==> skip == 0
  {
  }

  /** Going forward and then back returns to the same page. */
  lemma NextThenPrev(skip: int, total: int)
    requires skip >= 0 && skip + Limit < total
    ensures PrevSkip(NextSkip(skip, total)) == skip
  {
  }

  /** Going back from a page that exists and then forward returns to it. */
  lemma PrevThenNext(skip: int, total: int)
    requires skip >= Limit && skip < total
    ensures NextSkip(PrevSkip(skip), total) == skip
  {
  }

  /** An offset the page can reach: a non-negative multiple of the page
      size. */
  predicate Aligned(skip: int) {
    skip >= 0 && skip % Limit == 0
  }

  /** Both moves keep the offset aligned. */
  lemma MovesKeepAlignment(skip: int, total: int)
    requires Aligned(skip)
    ensures Aligned(PrevSkip(skip)) && Aligned(NextSkip(skip, total))
  {
  }

  // ---------------------------------------------------------------------
  // Suggestions

  /** One entry of `body.items`: its `message` and `source`, absent when
      null or undefined. */
  datatype LogItem = LogItem(message: Option<string>, source: Option<string>)

  /** The answer to the suggestion request: a response that is not `ok`, a
      parsed body whose `items` may be missing, or a fetch or JSON error. */
  datatype Reply = NotOk | Body(items: Option<seq<LogItem>>) | Threw

  /** A string's truthiness in JavaScript. */
  predicate Truthy(s: Option<string>) {
    s.Some? && s.value != []
  }

  /** `(it.message || it.source || '').trim()` */
  function SuggestionText(it: LogItem): (r: string)
    ensures r == [] || (!IsJsSpace(r[0]) && !IsJsSpace(r[|r| - 1]))
    ensures Truthy(it.message) ==> r == Trim(it.message.value, IsJsSpace)
    ensures !Truthy(it.message) && Truthy(it.source) ==> r == Trim(it.source.value, IsJsSpace)
    ensures !Truthy(it.message) && !Truthy(it.source) ==> r == []
  {
    var raw := if Truthy(it.message) then it.message.value else if Truthy(it.source) then it.source.value else "";
    Trim(raw, IsJsSpace)
  }

  /** The candidate texts, in order. */
  function Texts(items: seq<LogItem>): (r: seq<string>)
    ensures |r| == |items|
  {
    if items == [] then [] else Texts(items[..|items| - 1]) + [SuggestionText(items[|items| - 1])]
  }

  lemma {:induction false} TextsAt(items: seq<LogItem>, k: nat)
    requires k < |items|
    ensures Texts(items)[k] == SuggestionText(items[k])
  {
    if k < |items| - 1 {
      TextsAt(items[..|items| - 1], k);
    }
  }

  /** The non-empty texts of `texts`, each kept at its first occurrence. */
  function Dedup(texts: seq<string>): (r: seq<string>)
    ensures forall x :: x in r <==> x in texts && x != []
    ensures forall a, b :: 0 <= a < b < |r| ==> r[a] != r[b]
  {
    if texts == [] then []
    else
      var init := Dedup(texts[..|texts| - 1]);
      var last := texts[|texts| - 1];
      assert texts == texts[..|texts| - 1] + [last];
      if last != [] && last !in init then init + [last] else init
  }

  /** The position of the first occurrence of `x` in `s`. */
  function FirstIndex(s: seq<string>, x: string): (k: nat)
    requires x in s
    ensures k < |s| && s[k] == x && forall m :: 0 <= m < k ==> s[m] != x
  {
    if s[0] == x then 0 else 1 + FirstIndex(s[1..], x)
  }

  lemma FirstIndexPrefix(s: seq<string>, t: seq<string>, x: string)
    requires x in s
    ensures FirstIndex(s + t, x) == FirstIndex(s, x)
  {
    var k := FirstIndex(s, x);
    var u := s + t;
    assert u[k] == x;
    var j := FirstIndex(u, x);
    assert j <= k;
    assert s[j] == u[j];
  }

  /** The suggestions keep the order in which the texts first occur. */
  lemma {:induction false} DedupOrder(texts: seq<string>)
    ensures forall a, b :: 0 <= a < b < |Dedup(texts)| ==>
              FirstIndex(texts, Dedup(texts)[a]) < FirstIndex(texts, Dedup(texts)[b])
  {
    if texts != [] {
      var init := texts[..|texts| - 1];
      var last := texts[|texts| - 1];
      var d := Dedup(init);
      var r := Dedup(texts);
      assert texts == init + [last];
      DedupOrder(init);
      var pushed := last != [] && last !in d;
      assert r == if pushed then d + [last] else d;
      forall a, b | 0 <= a < b < |r|
        ensures FirstIndex(texts, r[a]) < FirstIndex(texts, r[b])
      {
        assert r[a] == d[a] && d[a] in init;
        FirstIndexPrefix(init, [last], d[a]);
        if b < |d| {
          assert r[b] == d[b] && d[b] in init;
          FirstIndexPrefix(init, [last], d[b]);
        } else {
          assert r[b] == last && last !in init;
          assert FirstIndex(texts, last) == |init| by {
            assert texts[|init|] == last;
          }
        }
      }
    }
  }

  lemma TextsSnoc(items: seq<LogItem>, i: nat)
    requires i < |items|
    ensures Texts(items[..i + 1]) == Texts(items[..i]) + [SuggestionText(items[i])]
  {
    assert items[..i + 1][..i] == items[..i];
  }

  lemma DedupSnoc(texts: seq<string>, x: string)
    ensures Dedup(texts + [x]) == if x != [] && x !in Dedup(texts) then Dedup(texts) + [x] else Dedup(texts)
  {
    assert (texts + [x])[..|texts|] == texts;
  }

  /** The `forEach` over `body.items`: a text is pushed if it is non-empty
      and not yet in `uniq`. */
  method CollectTexts(items: seq<LogItem>) returns (uniq: seq<string>)
    ensures uniq == Dedup(Texts(items))
  {
    uniq := [];
    for i := 0 to |items|
      invariant uniq == Dedup(Texts(items[..i]))
    {
      var txt := SuggestionText(items[i]);
      TextsSnoc(items, i);
      DedupSnoc(Texts(items[..i]), txt);
      if txt != [] && txt !in uniq {
        uniq := uniq + [txt];
      }
    }
    assert items[..|items|] == items;
  }

  const MaxSuggestions := 6

  /** `uniq.slice(0, 6)` */
  function Suggestions(items: seq<LogItem>): (r: seq<string>)
    ensures |r| <= MaxSuggestions
    ensures var d := Dedup(Texts(items)); |r| <= |d| && r == d[..|r|]
    ensures |r| < MaxSuggestions ==> r == Dedup(Texts(items))
  {
    var d := Dedup(Texts(items));
    if |d| <= MaxSuggestions then d else d[..MaxSuggestions]
  }

  /** Every suggestion is a non-empty, trimmed text of some entry, and no
      suggestion appears twice. */
  lemma SuggestionsWellFormed(items: seq<LogItem>)
    ensures forall a :: 0 <= a < |Suggestions(items)| ==>
              Suggestions(items)[a] != [] && exists k :: 0 <= k < |items| && SuggestionText(items[k]) == Suggestions(items)[a]
    ensures forall a, b :: 0 <= a < b < |Suggestions(items)| ==> Suggestions(items)[a] != Suggestions(items)[b]
  {
    var r := Suggestions(items);
    var d := Dedup(Texts(items));
    forall a | 0 <= a < |r|
      ensures r[a] != [] && exists k :: 0 <= k < |items| && SuggestionText(items[k]) == r[a]
    {
      assert r[a] == d[a];
      assert d[a] in Texts(items);
      var k :| 0 <= k < |items| && Texts(items)[k] == d[a];
      TextsAt(items, k);
    }
    forall a, b | 0 <= a < b < |r| ensures r[a] != r[b] {
      assert r[a] == d[a] && r[b] == d[b];
    }
  }

  /** The number of UTF-16 code units of `s`, which JavaScript's `length`
      counts. */
  function Utf16Length(s: string): (n: nat)
    ensures n >= |s|
    ensures n <= 2 * |s|
  {
    if s == [] then 0
    else Utf16Length(s[..|s| - 1]) + (if s[|s| - 1] as int >= 0x10000 then 2 else 1)
  }

  /** `!qFilter || qFilter.length < 2` */
  predicate TooShort(q: string) {
    q == [] || Utf16Length(q) < 2
  }

  /** A query of one BMP character is too short; one outside the BMP counts
      as two code units and is not. */
  lemma TooShortExamples()
    ensures TooShort("a") && !TooShort("ab")
    ensures !TooShort("\U{1F4FB}")
  {
    assert "ab"[..1] == "a";
    assert "\U{1F4FB}"[..0] == [];
  }

  /** The page's state that paging and the suggestion box change. */
  class LogsView {
    var skip: int
    var total: int
    var suggestions: seq<string>
    var showSuggestions: bool

    /** The offset is a non-negative multiple of the page size. */
    predicate Valid()
      reads this
    {
      Aligned(skip)
    }

    constructor ()
      ensures Valid()
      ensures skip == 0 && total == 0
      ensures suggestions == [] && !showSuggestions
    {
      skip := 0;
      total := 0;
      suggestions := [];
      showSuggestions := false;
    }

    /** `prevPage` */
    method PrevPage()
      requires Valid()
      modifies this
      ensures Valid()
      ensures skip == PrevSkip(old(skip))
      ensures old(skip) != 0 ==> skip == old(skip) - Limit
      ensures total == old(total) && suggestions == old(suggestions) && showSuggestions == old(showSuggestions)
    {
      MovesKeepAlignment(skip, total);
      skip := if skip - Limit > 0 then skip - Limit else 0;
    }

    /** `nextPage` */
    method NextPage()
      requires Valid()
      modifies this
      ensures Valid()
      ensures skip == NextSkip(old(skip), total)
      ensures skip != old(skip) ==> skip < total
      ensures total == old(total) && suggestions == old(suggestions) && showSuggestions == old(showSuggestions)
    {
      MovesKeepAlignment(skip, total);
      if skip + Limit < total {
        skip := skip + Limit;
      }
    }

    /** The number of entries the last list fetch reported
        (`setTotal(body.total || 0)`). */
    method SetTotal(reported: Option<int>)
      requires Valid()
      modifies this
      ensures Valid()
      ensures total == (if reported.Some? then reported.value else 0)
      ensures skip == old(skip) && suggestions == old(suggestions) && showSuggestions == old(showSuggestions)
    {
      total := if reported.Some? then reported.value else 0;
    }

    /** The suggestion effect for a new query `q`, with `reply` the answer
        its debounced request gets. */
    method QueryChanged(q: string, reply: Reply)
      requires Valid()
      modifies this
      ensures Valid()
      ensures skip == old(skip) && total == old(total)
      ensures TooShort(q) ==> suggestions == [] && showSuggestions == old(showSuggestions)
      ensures !TooShort(q) && reply.Body? ==>
                suggestions == Suggestions(if reply.items.Some? then reply.items.value else [])
                && showSuggestions
      ensures !TooShort(q) && !reply.Body? ==>
                suggestions == old(suggestions) && showSuggestions == old(showSuggestions)
    {
      if TooShort(q) {
        suggestions := [];
        return;
      }
      match reply {
        case Body(items) =>
          var uniq := CollectTexts(if items.Some? then items.value else []);
          suggestions := if |uniq| <= MaxSuggestions then uniq else uniq[..MaxSuggestions];
          showSuggestions := true;
        case NotOk =>
        case Threw =>
      }
    }
  }
}
