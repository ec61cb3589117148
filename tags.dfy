/**
 * The text widget's tags: each tag name maps to the set of character
 * offsets that carry it.  A name stays defined once created, even when it
 * no longer covers any character.
 */
module Tags {
  import opened Basics
  import Search

  type TagMap = map<string, set<nat>>

  const Bold := "bold"
  const Italic := "italic"
  const Underline := "underline"
  const Color := "color"
  const Misspelled := "misspelled"

  /** The offsets carrying `name` (none when the tag was never created). */
  function TagSet(m: TagMap, name: string): set<nat> {
    if name in m then m[name] else {}
  }

  predicate Has(m: TagMap, name: string, i: nat) {
    i in TagSet(m, name)
  }

  /** Every tagged offset lies inside a buffer of length `n`. */
  ghost predicate InBounds(m: TagMap, n: nat) {
    forall name, i | name in m && i in m[name] :: i < n
  }

  /** `tag_add(name, a, b)`. */
  function Add(m: TagMap, name: string, a: nat, b: nat): (r: TagMap)
    ensures name in r && r.Keys == m.Keys + {name}
    ensures forall i: nat :: Has(r, name, i) <==> Has(m, name, i) || a <= i < b
    ensures forall n | n != name :: TagSet(r, n) == TagSet(m, n)
  {
    m[name := TagSet(m, name) + Range(a, b)]
  }

  /** Two maps that agree away from `name` differ by an update of `name`. */
  lemma UpdatedAt(m: TagMap, m0: TagMap, name: string)
    requires name in m && m - {name} == m0 - {name}
    ensures m == m0[name := m[name]]
  {
    assert forall n | n != name :: n in m <==> n in (m0 - {name});
  }

  /** Adding a tag inside the buffer keeps every tag in bounds and touches no other tag. */
  lemma AddKeepsOthers(m: TagMap, name: string, a: nat, b: nat, n: nat)
    ensures InBounds(m, n) && b <= n ==> InBounds(Add(m, name, a, b), n)
    ensures Add(m, name, a, b) - {name} == m - {name}
    ensures TagSet(Add(m, name, a, b), name) == TagSet(m, name) + Range(a, b)
  {
  }

  /** `tag_remove(name, a, b)`. */
  function Remove(m: TagMap, name: string, a: nat, b: nat): (r: TagMap)
    ensures name in r && r.Keys == m.Keys + {name}
    ensures forall i: nat :: Has(r, name, i) <==> Has(m, name, i) && !(a <= i < b)
    ensures forall n | n != name :: TagSet(r, n) == TagSet(m, n)
  {
    m[name := TagSet(m, name) - Range(a, b)]
  }

  /** `tag_remove(tag, a, b)` for every defined tag. */
  function Strip(m: TagMap, a: nat, b: nat): (r: TagMap)
    ensures r.Keys == m.Keys
    ensures forall n, i: nat :: Has(r, n, i) <==> Has(m, n, i) && !(a <= i < b)
  {
    map n | n in m :: m[n] - Range(a, b)
  }

  /** Every defined tag emptied: what deleting the whole text leaves. */
  function Cleared(m: TagMap): (r: TagMap)
    ensures r.Keys == m.Keys
    ensures forall n, i: nat :: !Has(r, n, i)
  {
    map n | n in m :: {}
  }

  /**
   * A bold/italic/underline toggle over the selection `[a, b)`: decided by
   * the first selected character alone.
   */
  function Toggled(m: TagMap, name: string, a: nat, b: nat): (r: TagMap)
    // Afterwards the selection is uniformly tagged, opposite to its first character before...
    ensures forall i: nat | a <= i < b :: Has(r, name, i) == !Has(m, name, a)
    // ...and nothing changes outside the selection or in another tag.
    ensures forall n, i: nat | n != name || !(a <= i < b) :: Has(r, n, i) == Has(m, n, i)
  {
    if Has(m, name, a) then Remove(m, name, a, b) else Add(m, name, a, b)
  }

  /** After two toggles the selection is uniform, matching its first character's original state. */
  lemma DoubleToggleUniform(m: TagMap, name: string, a: nat, b: nat, i: nat)
    requires a <= i < b
    ensures Has(Toggled(Toggled(m, name, a, b), name, a, b), name, i) == Has(m, name, a)
  {
  }

  /** Toggling twice restores the tag exactly when the selection was uniformly tagged or untagged. */
  lemma DoubleToggleRestores(m: TagMap, name: string, a: nat, b: nat)
    requires a < b
    ensures (forall n :: TagSet(Toggled(Toggled(m, name, a, b), name, a, b), n) == TagSet(m, n))
      <==> (forall i: nat :: a <= i < b ==> Has(m, name, i) == Has(m, name, a))
  {
    var r := Toggled(Toggled(m, name, a, b), name, a, b);
    if forall i: nat :: a <= i < b ==> Has(m, name, i) == Has(m, name, a) {
      forall n ensures TagSet(r, n) == TagSet(m, n) {
        forall i: nat ensures i in TagSet(r, n) <==> i in TagSet(m, n) {
          if n == name && a <= i < b {
            DoubleToggleUniform(m, name, a, b, i);
            assert Has(m, name, i) == Has(m, name, a);
          }
        }
      }
    }
    if forall n :: TagSet(r, n) == TagSet(m, n) {
      forall i: nat | a <= i < b ensures Has(m, name, i) == Has(m, name, a) {
        DoubleToggleUniform(m, name, a, b, i);
        assert TagSet(r, name) == TagSet(m, name);
      }
    }
  }

  /**
   * A link over `[a, b)`: every tag stripped from the range, then the link's
   * own tag added over it.  Afterwards the range carries that tag alone.
   */
  lemma LinkedExclusive(m: TagMap, link: string, a: nat, b: nat, n: string, i: nat)
    ensures Has(Add(Strip(m, a, b), link, a, b), n, i) <==>
      if a <= i < b then n == link else Has(m, n, i)
  {
  }

  /** The name of the tag a link gets: `link-` followed by its start offset. */
  function LinkTagName(start: nat): (name: string)
    ensures |name| > 5 && name[..5] == "link-"
  {
    "link-" + Decimal(start)
  }

  function Digit(d: nat): (c: char)
    requires d < 10
    ensures '0' <= c <= '9'
  {
    "0123456789"[d]
  }

  /** The decimal numeral of `n`, without leading zeros. */
  function Decimal(n: nat): (s: string)
    ensures |s| > 0 && (forall c | c in s :: '0' <= c <= '9')
    ensures (|s| == 1) == (n < 10)
  {
    if n < 10 then [Digit(n)] else Decimal(n / 10) + [Digit(n % 10)]
  }

  lemma {:induction false} DecimalInjective(x: nat, y: nat)
    requires Decimal(x) == Decimal(y)
    ensures x == y
  {
    if 10 <= x {
      var dx, dy := Decimal(x), Decimal(y);
      assert dx[|dx| - 1] == Digit(x % 10) && dy[|dy| - 1] == Digit(y % 10);
      assert dx[..|dx| - 1] == Decimal(x / 10) && dy[..|dy| - 1] == Decimal(y / 10);
      DecimalInjective(x / 10, y / 10);
    } else {
      assert Decimal(x)[0] == Digit(x) && Decimal(y)[0] == Digit(y);
    }
  }

  /** Links at different start offsets get different tags, and no link tag is a style tag. */
  lemma LinkTagNames(s: nat, t: nat)
    ensures LinkTagName(s) == LinkTagName(t) ==> s == t
    ensures LinkTagName(s) !in {Bold, Italic, Underline, Color, Misspelled, "left", "center", "right"}
  {
    var ln := LinkTagName(s);
    assert ln[0] == "link-"[0] == 'l';
    if LinkTagName(s) == LinkTagName(t) {
      assert Decimal(s) == LinkTagName(s)[5..];
      DecimalInjective(s, t);
    }
  }
}
