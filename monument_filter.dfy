/** The map page's text filter: a monument is shown when its lowercased name
    or lowercased description contains the lowercased filter text, a missing
    name or description counting as the empty string. */
module MonumentFilter {
  import opened Wrappers

  /** A monument as the map page receives it. Name and description may be
      missing from the fetched data, so both are optional here. */
  datatype Entry = Entry(
    id: int,
    name: Option<string>,
    description: Option<string>,
    latitude: int,
    longitude: int,
    photoUrls: seq<string>)

  // ---------------------------------------------------------------------------
  // Case mapping (ASCII letters only)

  function LowerChar(c: char): (r: char)
    ensures !('A' <= r <= 'Z')
  {
    if 'A' <= c <= 'Z' then (c as int + 32) as char else c
  }

  function UpperChar(c: char): (r: char)
    ensures !('a' <= r <= 'z')
  {
    if 'a' <= c <= 'z' then (c as int - 32) as char else c
  }

  /** `toLowerCase()`. */
  function ToLower(s: string): (r: string)
    ensures |r| == |s|
    ensures forall i :: 0 <= i < |s| ==> r[i] == LowerChar(s[i])
  {
    seq(|s|, i requires 0 <= i < |s| => LowerChar(s[i]))
  }

  /** `toUpperCase()`. */
  function ToUpper(s: string): (r: string)
    ensures |r| == |s|
    ensures forall i :: 0 <= i < |s| ==> r[i] == UpperChar(s[i])
  {
    seq(|s|, i requires 0 <= i < |s| => UpperChar(s[i]))
  }

  /** Lowercasing twice is lowercasing once. */
  lemma ToLowerIdempotent(s: string)
    ensures ToLower(ToLower(s)) == ToLower(s)
  {
  }

  /** Uppercasing first does not change the lowercased text. */
  lemma ToLowerOfToUpper(s: string)
    ensures ToLower(ToUpper(s)) == ToLower(s)
  {
  }

  // ---------------------------------------------------------------------------
  // Substring search

  /** `hay.includes(needle)`: `needle` occurs in `hay` at some position; the
      empty string occurs everywhere. */
  function Includes(hay: string, needle: string): (r: bool)
    ensures needle == "" ==> r
    decreases |hay|
  {
    needle <= hay || (hay != [] && Includes(hay[1..], needle))
  }

  /** A needle longer than the haystack is never included. */
  lemma {:induction false} IncludesNeedsRoom(hay: string, needle: string)
    ensures Includes(hay, needle) ==> |needle| <= |hay|
    decreases |hay|
  {
    if hay != [] {
      IncludesNeedsRoom(hay[1..], needle);
    }
  }

  /** `needle` occurs in `hay` starting at position `i`. */
  ghost predicate OccursAt(hay: string, needle: string, i: nat)
  {
    i + |needle| <= |hay| && hay[i..i + |needle|] == needle
  }

  /** `Includes` finds an occurrence exactly when there is one. */
  lemma {:induction false} IncludesIffOccurs(hay: string, needle: string)
    ensures Includes(hay, needle) <==> exists i: nat :: OccursAt(hay, needle, i)
    decreases |hay|
  {
    if needle <= hay {
      assert OccursAt(hay, needle, 0);
    } else if hay == [] {
      forall i: nat ensures !OccursAt(hay, needle, i) {
      }
    } else {
      IncludesIffOccurs(hay[1..], needle);
      if Includes(hay[1..], needle) {
        var i: nat :| OccursAt(hay[1..], needle, i);
        assert hay[i + 1..i + 1 + |needle|] == hay[1..][i..i + |needle|];
        assert OccursAt(hay, needle, i + 1);
      } else {
        forall i: nat ensures !OccursAt(hay, needle, i) {
          if i > 0 && i + |needle| <= |hay| {
            assert !OccursAt(hay[1..], needle, i - 1);
            assert hay[1..][i - 1..i - 1 + |needle|] == hay[i..i + |needle|];
          }
        }
      }
    }
  }

  // ---------------------------------------------------------------------------
  // The filter

  /** `monument.name?.toLowerCase() || ''`, and the same for the description. */
  function LowerOrEmpty(s: Option<string>): (r: string)
    ensures s.None? ==> r == ""
    ensures s.Some? ==> r == ToLower(s.value)
  {
    match s
    case None => ""
    case Some(v) => ToLower(v)
  }

  /** The filter predicate: the lowercased name or description contains the
      lowercased filter text. */
  predicate Matches(filterText: string, m: Entry): (r: bool)
    ensures filterText == "" ==> r
    ensures r ==> |filterText| <= |LowerOrEmpty(m.name)| || |filterText| <= |LowerOrEmpty(m.description)|
  {
    var term := ToLower(filterText);
    IncludesNeedsRoom(LowerOrEmpty(m.name), term);
    IncludesNeedsRoom(LowerOrEmpty(m.description), term);
    Includes(LowerOrEmpty(m.name), term) || Includes(LowerOrEmpty(m.description), term)
  }

  /** `monuments.filter(...)`: the monuments the filter keeps, in their order. */
  function Filtered(ms: seq<Entry>, filterText: string): (r: seq<Entry>)
    ensures |r| <= |ms|
    ensures forall m :: m in r ==> m in ms && Matches(filterText, m)
    ensures forall m :: m in ms && Matches(filterText, m) ==> m in r
  {
    if ms == [] then []
    else if Matches(filterText, ms[0]) then [ms[0]] + Filtered(ms[1..], filterText)
    else Filtered(ms[1..], filterText)
  }

  /** Soundness and completeness against the substring definition: a
      monument is kept exactly when the lowercased filter text occurs in its
      lowercased name or its lowercased description. */
  lemma FilteredKeepsExactlyOccurrences(ms: seq<Entry>, filterText: string, m: Entry)
    requires m in ms
    ensures m in Filtered(ms, filterText) <==>
      || (exists i: nat :: OccursAt(LowerOrEmpty(m.name), ToLower(filterText), i))
      || (exists i: nat :: OccursAt(LowerOrEmpty(m.description), ToLower(filterText), i))
  {
    IncludesIffOccurs(LowerOrEmpty(m.name), ToLower(filterText));
    IncludesIffOccurs(LowerOrEmpty(m.description), ToLower(filterText));
  }

  /** The filter keeps every matching monument as many times as the list
      holds it, and no other monument at all. */
  lemma {:induction false} FilteredMultiset(ms: seq<Entry>, filterText: string)
    ensures forall m :: multiset(Filtered(ms, filterText))[m]
                        == if Matches(filterText, m) then multiset(ms)[m] else 0
  {
    if ms != [] {
      FilteredMultiset(ms[1..], filterText);
      assert ms == [ms[0]] + ms[1..];
    }
  }

  /** `a` is `b` with some elements left out: order kept, nothing added or
      repeated. */
  ghost predicate IsSubsequence(a: seq<Entry>, b: seq<Entry>)
    decreases |b|
  {
    a == [] || (b != [] && ((a[0] == b[0] && IsSubsequence(a[1..], b[1..])) || IsSubsequence(a, b[1..])))
  }

  /** The filtered list is a subsequence of the list. */
  lemma {:induction false} FilteredIsSubsequence(ms: seq<Entry>, filterText: string)
    ensures IsSubsequence(Filtered(ms, filterText), ms)
  {
    if ms != [] {
      FilteredIsSubsequence(ms[1..], filterText);
      var r := Filtered(ms, filterText);
      if Matches(filterText, ms[0]) {
        assert r[0] == ms[0] && r[1..] == Filtered(ms[1..], filterText);
      }
    }
  }

  /** An empty filter keeps every monument. */
  lemma {:induction false} EmptyFilterKeepsAll(ms: seq<Entry>)
    ensures Filtered(ms, "") == ms
  {
    if ms != [] {
      assert ToLower("") == "";
      EmptyFilterKeepsAll(ms[1..]);
      assert ms == [ms[0]] + ms[1..];
    }
  }

  /** The result depends on the filter text only through its lowercased form. */
  lemma {:induction false} FilterSeesOnlyLowercase(ms: seq<Entry>, f: string, g: string)
    requires ToLower(f) == ToLower(g)
    ensures Filtered(ms, f) == Filtered(ms, g)
  {
    if ms != [] {
      FilterSeesOnlyLowercase(ms[1..], f, g);
    }
  }

  /** Changing the case of the filter text does not change the result. */
  lemma FilterIgnoresCase(ms: seq<Entry>, f: string)
    ensures Filtered(ms, ToLower(f)) == Filtered(ms, f)
    ensures Filtered(ms, ToUpper(f)) == Filtered(ms, f)
  {
    ToLowerIdempotent(f);
    FilterSeesOnlyLowercase(ms, ToLower(f), f);
    ToLowerOfToUpper(f);
    FilterSeesOnlyLowercase(ms, ToUpper(f), f);
  }

  /** A monument without a description matches only through its name, and
      one with neither name nor description matches only the empty filter. */
  lemma MissingFieldsMatchAsEmpty(filterText: string, m: Entry)
    ensures m.description.None? ==>
      (Matches(filterText, m) <==> Includes(LowerOrEmpty(m.name), ToLower(filterText)))
    ensures m.name.None? && m.description.None? ==> (Matches(filterText, m) <==> filterText == "")
  {
  }

  /** The count shown beside the filter: the filtered count never exceeds
      the total, and equals it exactly when every monument matches. */
  lemma {:induction false} FilteredCount(ms: seq<Entry>, filterText: string)
    ensures |Filtered(ms, filterText)| <= |ms|
    ensures |Filtered(ms, filterText)| == |ms| <==> forall m :: m in ms ==> Matches(filterText, m)
  {
    if ms != [] {
      FilteredCount(ms[1..], filterText);
      if forall m :: m in ms ==> Matches(filterText, m) {
        assert forall m :: m in ms[1..] ==> m in ms;
      } else {
        var m :| m in ms && !Matches(filterText, m);
        if m != ms[0] {
          assert m in ms[1..];
        }
      }
    }
  }
}
