/**
 * Choosing the URL of the full-size image (`get_final_image_url`): three attributes of the
 * viewer's `<img>` are read in priority order and the first usable one wins.
 */
module Resolver {
  import opened Base
  import opened Text

  /** The attributes an element carries; `get_attribute` gives `None` for a missing one. */
  type Element = map<string, string>

  const SRC := "src"
  const DATA_ORIGIN := "data-origin"
  const DATA_SRC := "data-src"

  function Attr(img: Element, name: string): Option<string> {
    if name in img then Some(img[name]) else None
  }

  /** A candidate is used when it is present, non-empty and not an inline placeholder. */
  predicate Usable(v: Option<string>) {
    v.Some? && v.value != "" && !StartsWith(v.value, INLINE_IMAGE)
  }

  /** What the resolver returns, together with the attribute names it read, in order. */
  datatype Lookup = Lookup(url: Option<string>, consulted: seq<string>)

  /** `get_final_image_url`: `src`, else `data-origin`, else `data-src` whatever it holds. */
  function FinalImageUrl(img: Element): Lookup {
    var src := Attr(img, SRC);
    if Usable(src) then Lookup(src, [SRC])
    else
      var origin := Attr(img, DATA_ORIGIN);
      if Usable(origin) then Lookup(origin, [SRC, DATA_ORIGIN])
      else Lookup(Attr(img, DATA_SRC), [SRC, DATA_ORIGIN, DATA_SRC])
  }

  /**
   * The attributes are read in the order `src`, `data-origin`, `data-src`; reading stops at
   * the first usable one, and the value returned is that of the last attribute read.
   */
  lemma FinalImageUrlConsults(img: Element)
    ensures var r := FinalImageUrl(img);
      && (r.consulted == [SRC] <==> Usable(Attr(img, SRC)))
      && (r.consulted == [SRC, DATA_ORIGIN] <==> !Usable(Attr(img, SRC)) && Usable(Attr(img, DATA_ORIGIN)))
      && (|r.consulted| == 3 <==> !Usable(Attr(img, SRC)) && !Usable(Attr(img, DATA_ORIGIN)))
      && r.consulted == [SRC, DATA_ORIGIN, DATA_SRC][..|r.consulted|]
      && r.url == Attr(img, r.consulted[|r.consulted| - 1])
  {
  }

  /**
   * The same rule written as a reducer over an ordered list: the first usable candidate,
   * and the last fallback, unchecked, when none is usable.
   */
  function FirstUsable(candidates: seq<Option<string>>, last: Option<string>): (r: Option<string>)
    ensures r == last || exists k :: 0 <= k < |candidates| && candidates[k] == r && Usable(r)
  {
    if candidates == [] then last
    else if Usable(candidates[0]) then candidates[0]
    else FirstUsable(candidates[1..], last)
  }

  /** `FirstUsable` picks the first usable candidate, and only when every earlier one is unusable. */
  lemma {:induction false} FirstUsableIsFirst(candidates: seq<Option<string>>, last: Option<string>, k: nat)
    requires k < |candidates| && Usable(candidates[k])
    requires forall j :: 0 <= j < k ==> !Usable(candidates[j])
    ensures FirstUsable(candidates, last) == candidates[k]
  {
    if k > 0 {
      FirstUsableIsFirst(candidates[1..], last, k - 1);
    }
  }

  lemma {:induction false} FirstUsableFallsThrough(candidates: seq<Option<string>>, last: Option<string>)
    requires forall j :: 0 <= j < |candidates| ==> !Usable(candidates[j])
    ensures FirstUsable(candidates, last) == last
  {
    if candidates != [] {
      FirstUsableFallsThrough(candidates[1..], last);
    }
  }

  /** The chain of guarded returns and the list reducer agree on every element. */
  lemma ResolverIsFirstUsable(img: Element)
    ensures FinalImageUrl(img).url
         == FirstUsable([Attr(img, SRC), Attr(img, DATA_ORIGIN)], Attr(img, DATA_SRC))
  {
    var cs := [Attr(img, SRC), Attr(img, DATA_ORIGIN)];
    if Usable(cs[0]) {
      FirstUsableIsFirst(cs, Attr(img, DATA_SRC), 0);
    } else if Usable(cs[1]) {
      FirstUsableIsFirst(cs, Attr(img, DATA_SRC), 1);
    } else {
      FirstUsableFallsThrough(cs, Attr(img, DATA_SRC));
    }
  }

  /** A usable `src` is returned exactly, and no other attribute is read. */
  lemma SrcWins(img: Element, u: string)
    requires Attr(img, SRC) == Some(u) && u != "" && !StartsWith(u, INLINE_IMAGE)
    ensures FinalImageUrl(img) == Lookup(Some(u), [SRC])
  {
  }

  /** An unusable `src` and a usable `data-origin`: `data-origin` is returned exactly. */
  lemma DataOriginWins(img: Element, u: string)
    requires !Usable(Attr(img, SRC))
    requires Attr(img, DATA_ORIGIN) == Some(u) && u != "" && !StartsWith(u, INLINE_IMAGE)
    ensures FinalImageUrl(img).url == Some(u)
  {
  }

  /** With both unusable, `data-src` comes back verbatim: absent, empty or inline alike. */
  lemma DataSrcVerbatim(img: Element)
    requires !Usable(Attr(img, SRC)) && !Usable(Attr(img, DATA_ORIGIN))
    ensures FinalImageUrl(img).url == Attr(img, DATA_SRC)
  {
  }

  /**
   * The result depends on the consulted attributes alone: two elements that agree on them
   * resolve alike, whatever else they carry.
   */
  lemma ResolverReadsOnlyConsulted(a: Element, b: Element)
    requires forall n :: n in FinalImageUrl(a).consulted ==> Attr(a, n) == Attr(b, n)
    ensures FinalImageUrl(b) == FinalImageUrl(a)
  {
    assert SRC in FinalImageUrl(a).consulted;
    if !Usable(Attr(a, SRC)) {
      assert DATA_ORIGIN in FinalImageUrl(a).consulted;
      if !Usable(Attr(a, DATA_ORIGIN)) {
        assert DATA_SRC in FinalImageUrl(a).consulted;
      }
    }
  }
}
