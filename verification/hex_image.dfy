/**
 The firmware image as the programming session sees it: a word-addressed
 map from populated addresses to words. Decoding the hex file itself is
 outside this model; an address the file does not populate reads as the
 decoder's padding value, 0xFFFF.
 */
module HexImage {
  import opened Options
  import opened Wire

  type Image = map<nat, nat>

  /** Word address of the configuration word. */
  const ConfigAddress: nat := 0x2007

  /** The word at address `a`: the stored word, or the padding value when absent. */
  function Get(img: Image, a: nat): nat {
    if a in img then img[a] else Erased
  }

  /** The configuration word, looked up at its fixed address. */
  function ConfigWord(img: Image): (w: nat)
    ensures w == Get(img, ConfigAddress)
    ensures ConfigAddress !in img ==> w == Erased
  {
    if ConfigAddress in img then img[ConfigAddress] else Erased
  }

  /** Some populated address lies at or below `ceiling`. */
  predicate HasLocAtMost(img: Image, ceiling: int) {
    exists k :: k in img && k <= ceiling
  }

  /**
   The greatest populated address that is at most `ceiling`, found by
   searching downwards from the ceiling; `None` when no populated address
   is that low (where hexfile.py's `last_loc` takes `max` of an empty sequence).
   */
  function LastLoc(img: Image, ceiling: int): (r: Option<nat>)
    ensures r.Some? <==> HasLocAtMost(img, ceiling)
    ensures r.Some? ==> r.value in img && r.value <= ceiling
    ensures r.Some? ==> forall k :: k in img && k <= ceiling ==> k <= r.value
    decreases ceiling
  {
    if ceiling < 0 then None
    else if ceiling as nat in img then Some(ceiling as nat)
    else LastLoc(img, ceiling - 1)
  }

  /**
   hexfile.py's `last_loc`, a `max` over the populated addresses that pass
   the `<= ceiling` filter, scanning the keys in any order.
   */
  method LastLocOfKeys(img: Image, ceiling: int) returns (r: Option<nat>)
    ensures r == LastLoc(img, ceiling)
  {
    var rest := img.Keys;
    r := None;
    while rest != {}
      invariant rest <= img.Keys
      invariant r.Some? ==> r.value in img && r.value <= ceiling
      invariant forall k :: k in img && k !in rest && k <= ceiling ==> r.Some? && k <= r.value
      invariant r.None? ==> forall k :: k in img && k !in rest ==> ceiling < k
      decreases rest
    {
      var k :| k in rest;
      if k <= ceiling && (r.None? || r.value < k) {
        r := Some(k);
      }
      rest := rest - {k};
    }
    var l := LastLoc(img, ceiling);
    if r.Some? {
      assert l.Some?;
      assert r.value <= l.value && l.value <= r.value;
    }
  }

  /** `LastLoc` is pinned down by its contract: a populated address at most the ceiling that bounds every other such address. */
  lemma LastLocUnique(img: Image, ceiling: int, a: nat)
    requires a in img && a <= ceiling
    requires forall k :: k in img && k <= ceiling ==> k <= a
    ensures LastLoc(img, ceiling) == Some(a)
  {
  }

  /** The worked example: with populated addresses {0, 1, 5, 2000}, a ceiling of 0x3FF gives 5 and a ceiling of 1 gives 1. */
  lemma LastLocExample(img: Image)
    requires img.Keys == {0, 1, 5, 2000}
    ensures LastLoc(img, 0x03FF) == Some(5)
    ensures LastLoc(img, 1) == Some(1)
  {
  }
}
