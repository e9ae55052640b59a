/**
  The content normaliser of the chatbot engine (`_extract_text_content`): it
  flattens the content of an agent message, which may be a string, a mapping,
  a list of either or something else, into one trimmed string or nothing.
 */
module Normalizer {
  import opened Options
  import opened Text

  /**
    Message content as the agent hands it over. A mapping is an association
    list; Python dicts have unique keys, and every lookup here takes the first
    entry with the key. `Other` stands for any value that is not `None`, a
    string, a dict or a list (numbers, booleans, objects).
   */
  datatype Content =
    | Null
    | Str(s: string)
    | Dict(entries: seq<(string, Content)>)
    | List(items: seq<Content>)
    | Other

  /** The separator placed between the texts of list elements. */
  const BlockSeparator := "\n\n"

  /** The keys probed, in this order, in a mapping that is not a text block. */
  const FallbackKeys := ["content", "text", "value"]

  /** Position of the entry for `key`, as `key in d` and `d[key]` see it. */
  function IndexOf(entries: seq<(string, Content)>, key: string): (r: Option<nat>)
    ensures r.Some? ==> r.value < |entries| && entries[r.value].0 == key
  {
    if |entries| == 0 then None
    else if entries[0].0 == key then Some(0)
    else match IndexOf(entries[1..], key)
      case None => None
      case Some(i) => Some(i + 1)
  }

  /** `IndexOf` finds the first entry with the key, and finds nothing only when no entry has it. */
  lemma {:induction false} IndexOfIsFirst(entries: seq<(string, Content)>, key: string)
    ensures IndexOf(entries, key).Some? ==>
              forall j :: 0 <= j < IndexOf(entries, key).value ==> entries[j].0 != key
    ensures IndexOf(entries, key).None? <==> forall j :: 0 <= j < |entries| ==> entries[j].0 != key
  {
    if |entries| > 0 && entries[0].0 != key {
      IndexOfIsFirst(entries[1..], key);
      assert forall j :: 1 <= j < |entries| ==> entries[j] == entries[1..][j - 1];
    }
  }

  /** Position of the entry for the first of `keys` that is present at all. */
  function FirstKeyIndex(entries: seq<(string, Content)>, keys: seq<string>): (r: Option<nat>)
    ensures r.Some? ==> r.value < |entries|
  {
    if |keys| == 0 then None
    else match IndexOf(entries, keys[0])
      case Some(i) => Some(i)
      case None => FirstKeyIndex(entries, keys[1..])
  }

  /** `FirstKeyIndex` is the entry of the first key present, and nothing when no key is present. */
  lemma {:induction false} FirstKeyIndexIsFirstPresent(entries: seq<(string, Content)>, keys: seq<string>)
    ensures FirstKeyIndex(entries, keys).Some? ==>
              exists k :: 0 <= k < |keys| && IndexOf(entries, keys[k]) == FirstKeyIndex(entries, keys)
                          && forall k' :: 0 <= k' < k ==> IndexOf(entries, keys[k']).None?
    ensures FirstKeyIndex(entries, keys).None? <==> forall k :: 0 <= k < |keys| ==> IndexOf(entries, keys[k]).None?
  {
    if |keys| > 0 {
      if IndexOf(entries, keys[0]).None? {
        FirstKeyIndexIsFirstPresent(entries, keys[1..]);
        assert forall k :: 1 <= k < |keys| ==> keys[k] == keys[1..][k - 1];
        if FirstKeyIndex(entries, keys).Some? {
          var k :| 0 <= k < |keys[1..]| && IndexOf(entries, keys[1..][k]) == FirstKeyIndex(entries, keys)
                   && forall k' :: 0 <= k' < k ==> IndexOf(entries, keys[1..][k']).None?;
          assert IndexOf(entries, keys[k + 1]) == FirstKeyIndex(entries, keys);
        }
      } else {
        assert IndexOf(entries, keys[0]) == FirstKeyIndex(entries, keys);
      }
    }
  }

  /** `d.get("type") == "text"`: the mapping is a LangChain text block. */
  predicate IsTextBlock(entries: seq<(string, Content)>) {
    match IndexOf(entries, "type")
    case None => false
    case Some(i) => entries[i].1 == Str("text")
  }

  /** The `"text"` field of a text block is a string when present (else `.strip()` raises). */
  predicate TextFieldIsString(entries: seq<(string, Content)>) {
    match IndexOf(entries, "text")
    case None => true
    case Some(i) => entries[i].1.Str?
  }

  /** `d.get("text", "")` on a text block. */
  function TextField(entries: seq<(string, Content)>): string
    requires TextFieldIsString(entries)
  {
    match IndexOf(entries, "text")
    case None => ""
    case Some(i) => entries[i].1.s
  }

  /**
    The content on which the normaliser does not raise: every text block it
    reaches has a string (or no) `"text"` field. Parts it never looks at are
    unconstrained.
   */
  predicate WellFormed(c: Content)
    decreases c, 1
  {
    match c
    case Dict(entries) => WellFormedDict(entries)
    case List(items) => AllWellFormed(items)
    case _ => true
  }

  /** A mapping the normaliser reads without raising. */
  predicate WellFormedDict(entries: seq<(string, Content)>)
    decreases Dict(entries), 0
  {
    if IsTextBlock(entries) then TextFieldIsString(entries)
    else match FirstKeyIndex(entries, FallbackKeys)
      case None => true
      case Some(i) => WellFormed(entries[i].1)
  }

  /** Every element of a list is read without raising. */
  predicate AllWellFormed(items: seq<Content>)
    decreases List(items), 0
  {
    forall i :: 0 <= i < |items| ==> WellFormed(items[i])
  }

  /** Python's `text if text else None` on a stripped string. */
  function NonBlank(text: string): Option<string> {
    if |text| == 0 then None else Some(text)
  }

  /** `_extract_text_content`: the one text of `c`, or nothing. */
  function Normalize(c: Content): (r: Option<string>)
    requires WellFormed(c)
    ensures r.Some? ==> |r.value| > 0 && IsTrimmed(r.value)
    decreases c, 2
  {
    match c
    case Null => None
    case Str(s) => NonBlank(Strip(s))
    case Dict(entries) => NormalizeDict(entries)
    case List(items) => NormalizeList(items)
    case Other => None
  }

  /** A mapping: a text block's stripped `"text"` field, else the first fallback key's content. */
  function NormalizeDict(entries: seq<(string, Content)>): (r: Option<string>)
    requires WellFormedDict(entries)
    ensures r.Some? ==> |r.value| > 0 && IsTrimmed(r.value)
    decreases Dict(entries), 1
  {
    if IsTextBlock(entries) then NonBlank(Strip(TextField(entries)))
    else match FirstKeyIndex(entries, FallbackKeys)
      case None => None
      case Some(i) => Normalize(entries[i].1)
  }

  /** A list: the texts of its elements joined by the block separator, stripped, or nothing when none has one. */
  function NormalizeList(items: seq<Content>): (r: Option<string>)
    requires AllWellFormed(items)
    ensures r.Some? ==> |r.value| > 0 && IsTrimmed(r.value)
    decreases List(items), 1
  {
    var parts := Texts(items);
    if |parts| == 0 then None
    else
      JoinTrimmed(BlockSeparator, parts);
      Some(Strip(Join(BlockSeparator, parts)))
  }

  /** The texts of the list elements that have one, in list order. */
  function Texts(items: seq<Content>): (parts: seq<string>)
    requires AllWellFormed(items)
    ensures |parts| <= |items|
    ensures forall j :: 0 <= j < |parts| ==> |parts[j]| > 0 && IsTrimmed(parts[j])
    decreases items, 0
  {
    if |items| == 0 then []
    else
      var init, last := items[..|items| - 1], items[|items| - 1];
      assert AllWellFormed(init) && WellFormed(last) by {
        assert forall i :: 0 <= i < |init| ==> init[i] == items[i];
      }
      Texts(init) + Kept(Normalize(last))
  }

  /** Python's `if block_text: parts.append(block_text)`: only a present, non-empty text is kept. */
  function Kept(t: Option<string>): (kept: seq<string>)
    ensures |kept| <= 1
    ensures kept != [] <==> t.Some? && t.value != []
    ensures kept != [] ==> kept[0] == t.value
  {
    match t
    case None => []
    case Some(x) => if |x| > 0 then [x] else []
  }

  /** Texts of two lists side by side: the texts of each, one after the other. */
  function Merge(a: Option<string>, b: Option<string>): Option<string> {
    match (a, b)
    case (None, _) => b
    case (_, None) => a
    case (Some(x), Some(y)) => Some(x + BlockSeparator + y)
  }

  /** A string normalises to its stripped form, and to nothing exactly when it is all whitespace. */
  lemma NormalizeString(s: string)
    ensures Normalize(Str(s)).None? <==> AllWhitespace(s)
    ensures Normalize(Str(s)).Some? ==> Normalize(Str(s)).value == Strip(s)
  {
    StripEmpty(s);
  }

  /** A text block yields its stripped `"text"` field, and nothing when that field is missing. */
  lemma TextBlockYieldsTextField(entries: seq<(string, Content)>)
    requires IsTextBlock(entries) && TextFieldIsString(entries)
    ensures WellFormed(Dict(entries))
    ensures Normalize(Dict(entries)) == Normalize(Str(TextField(entries)))
    ensures IndexOf(entries, "text").None? ==> Normalize(Dict(entries)).None?
  {
  }

  /** A text block's other keys are never consulted: two blocks with the same `"text"` field agree. */
  lemma TextBlockIgnoresOtherKeys(e1: seq<(string, Content)>, e2: seq<(string, Content)>)
    requires IsTextBlock(e1) && TextFieldIsString(e1)
    requires IsTextBlock(e2) && TextFieldIsString(e2)
    requires TextField(e1) == TextField(e2)
    ensures WellFormed(Dict(e1)) && WellFormed(Dict(e2))
    ensures Normalize(Dict(e1)) == Normalize(Dict(e2))
  {
  }

  /**
    In any other mapping the first present key among `content`, `text`,
    `value` decides by recursion, even when its value has no text: later keys
    are never tried.
   */
  lemma FirstFallbackKeyDecides(entries: seq<(string, Content)>, k: nat, i: nat)
    requires !IsTextBlock(entries)
    requires k < |FallbackKeys| && IndexOf(entries, FallbackKeys[k]) == Some(i)
    requires forall k' :: 0 <= k' < k ==> IndexOf(entries, FallbackKeys[k']).None?
    requires WellFormed(entries[i].1)
    ensures WellFormed(Dict(entries))
    ensures Normalize(Dict(entries)) == Normalize(entries[i].1)
  {
    var r := FirstKeyIndex(entries, FallbackKeys);
    FirstKeyIndexIsFirstPresent(entries, FallbackKeys);
    var k0 :| 0 <= k0 < |FallbackKeys| && IndexOf(entries, FallbackKeys[k0]) == r
              && forall k' :: 0 <= k' < k0 ==> IndexOf(entries, FallbackKeys[k']).None?;
  }

  /** A mapping that is not a text block and has none of the fallback keys yields nothing. */
  lemma NoFallbackKeyYieldsNothing(entries: seq<(string, Content)>)
    requires !IsTextBlock(entries)
    requires forall k :: 0 <= k < |FallbackKeys| ==> IndexOf(entries, FallbackKeys[k]).None?
    ensures WellFormed(Dict(entries))
    ensures Normalize(Dict(entries)).None?
  {
    FirstKeyIndexIsFirstPresent(entries, FallbackKeys);
  }

  lemma ConcatAssoc(a: seq<string>, b: seq<string>, c: seq<string>)
    ensures a + b + c == a + (b + c)
  {
  }

  /** Appending one element appends that element's kept text. */
  lemma TextsSnoc(items: seq<Content>, x: Content)
    requires AllWellFormed(items)
    requires WellFormed(x)
    ensures AllWellFormed(items + [x])
    ensures Texts(items + [x]) == Texts(items) + Kept(Normalize(x))
  {
    assert (items + [x])[..|items|] == items;
  }

  /** The texts of a concatenation are the concatenation of the texts. */
  lemma {:induction false} TextsConcat(xs: seq<Content>, ys: seq<Content>)
    requires AllWellFormed(xs)
    requires AllWellFormed(ys)
    ensures AllWellFormed(xs + ys)
    ensures Texts(xs + ys) == Texts(xs) + Texts(ys)
    decreases |ys|
  {
    if |ys| == 0 {
      assert xs + ys == xs;
    } else {
      var ys', y := ys[..|ys| - 1], ys[|ys| - 1];
      assert ys == ys' + [y];
      assert xs + ys == (xs + ys') + [y];
      TextsConcat(xs, ys');
      TextsSnoc(xs + ys', y);
      TextsSnoc(ys', y);
      ConcatAssoc(Texts(xs), Texts(ys'), Kept(Normalize(y)));
    }
  }

  /** A list with one more element has no element text exactly when the shorter list and the new element have none. */
  lemma NoTextSnoc(init: seq<Content>, x: Content)
    requires AllWellFormed(init) && WellFormed(x)
    ensures AllWellFormed(init + [x])
    ensures (forall i :: 0 <= i < |init + [x]| ==> Normalize((init + [x])[i]).None?)
        <==> (forall i :: 0 <= i < |init| ==> Normalize(init[i]).None?) && Normalize(x).None?
  {
    var items := init + [x];
    assert forall i :: 0 <= i < |init| ==> items[i] == init[i];
    assert items[|init|] == x;
  }

  /** No element text is kept exactly when no element has a text. */
  lemma {:induction false} TextsEmpty(items: seq<Content>)
    requires AllWellFormed(items)
    ensures Texts(items) == [] <==> forall i :: 0 <= i < |items| ==> Normalize(items[i]).None?
    decreases |items|
  {
    if |items| > 0 {
      var init, x := items[..|items| - 1], items[|items| - 1];
      assert items == init + [x];
      assert AllWellFormed(init) && WellFormed(x) by {
        assert forall i :: 0 <= i < |init| ==> init[i] == items[i];
      }
      TextsEmpty(init);
      TextsSnoc(init, x);
      NoTextSnoc(init, x);
    }
  }

  /** A list has no text exactly when none of its elements has. */
  lemma ListWithoutTextIsNothing(items: seq<Content>)
    requires AllWellFormed(items)
    ensures WellFormed(List(items))
    ensures Normalize(List(items)).None? <==> forall i :: 0 <= i < |items| ==> Normalize(items[i]).None?
  {
    TextsEmpty(items);
    NormalizeListIsJoin(items);
  }

  /** The final `.strip()` on the joined list texts never changes anything. */
  lemma FinalStripIsIdentity(items: seq<Content>)
    requires AllWellFormed(items)
    requires |Texts(items)| > 0
    ensures Strip(Join(BlockSeparator, Texts(items))) == Join(BlockSeparator, Texts(items))
  {
    JoinTrimmed(BlockSeparator, Texts(items));
  }

  /** A list's text is the join of its element texts, or nothing when there are none. */
  lemma NormalizeListIsJoin(items: seq<Content>)
    requires AllWellFormed(items)
    ensures WellFormed(List(items))
    ensures Texts(items) == [] ==> Normalize(List(items)).None?
    ensures Texts(items) != [] ==> Normalize(List(items)) == Some(Join(BlockSeparator, Texts(items)))
  {
    if Texts(items) != [] {
      FinalStripIsIdentity(items);
    }
  }

  /** Normalising a concatenated list merges the texts of its two halves with the block separator. */
  lemma NormalizeListConcat(xs: seq<Content>, ys: seq<Content>)
    requires AllWellFormed(xs)
    requires AllWellFormed(ys)
    ensures WellFormed(List(xs)) && WellFormed(List(ys)) && WellFormed(List(xs + ys))
    ensures Normalize(List(xs + ys)) == Merge(Normalize(List(xs)), Normalize(List(ys)))
  {
    TextsConcat(xs, ys);
    NormalizeListIsJoin(xs);
    NormalizeListIsJoin(ys);
    NormalizeListIsJoin(xs + ys);
    var a, b := Texts(xs), Texts(ys);
    if a != [] && b != [] {
      JoinConcat(BlockSeparator, a, b);
    } else if a == [] {
      assert Texts(xs + ys) == b;
    } else {
      assert Texts(xs + ys) == a;
    }
  }

  /** A one-element list has the text of its element. */
  lemma NormalizeSingleton(c: Content)
    requires WellFormed(c)
    ensures WellFormed(List([c]))
    ensures Normalize(List([c])) == Normalize(c)
  {
    TextsSnoc([], c);
    assert [] + [c] == [c];
    NormalizeListIsJoin([c]);
  }

  /** Appending one element to a list merges its text onto the list's text. */
  lemma NormalizeSnoc(items: seq<Content>, x: Content)
    requires AllWellFormed(items)
    requires WellFormed(x)
    ensures WellFormed(List(items)) && WellFormed(List(items + [x]))
    ensures Normalize(List(items + [x])) == Merge(Normalize(List(items)), Normalize(x))
  {
    NormalizeListConcat(items, [x]);
    NormalizeSingleton(x);
  }

  /**
    A three-element list merges its element texts left to right; so in
    `[a, m, b]` where `m` has no text, `m` is dropped and the result is
    `a + "\n\n" + b`.
   */
  lemma NormalizeThreeBlocks(items: seq<Content>)
    requires |items| == 3
    requires AllWellFormed(items)
    ensures WellFormed(List(items))
    ensures Normalize(List(items))
         == Merge(Merge(Normalize(items[0]), Normalize(items[1])), Normalize(items[2]))
    ensures Normalize(items[0]).Some? && Normalize(items[1]).None? && Normalize(items[2]).Some? ==>
              Normalize(List(items)) == Some(Normalize(items[0]).value + BlockSeparator + Normalize(items[2]).value)
  {
    var first, second := items[..1], items[..2];
    assert first == [items[0]];
    assert second == first + [items[1]];
    assert items == second + [items[2]];
    NormalizeSingleton(items[0]);
    NormalizeSnoc(first, items[1]);
    NormalizeSnoc(second, items[2]);
  }

  /** Normalising is idempotent: the text of any content normalises to itself as a string. */
  lemma NormalizeIdempotent(c: Content)
    requires WellFormed(c) && Normalize(c).Some?
    ensures Normalize(Str(Normalize(c).value)) == Normalize(c)
  {
  }
}
