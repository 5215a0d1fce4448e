/**
 * The four sales regions the pricing tests cover, their display names, and
 * per-region tables of factors and exchange rates keyed by name.
 */
module Regions {
  import opened Wrappers

  datatype Region = China | Taiwan | Mongolia | HongKong

  /** The region's name as it appears in configuration and in the UI. */
  function Name(r: Region): (s: string)
    ensures |s| > 0
  {
    match r
    case China => "CHINA"
    case Taiwan => "TAIWAN"
    case Mongolia => "MONGOLIA"
    case HongKong => "HONG KONG"
  }

  /** Looking a region up by its exact name, as an object keyed by name does; `None` for any other text. */
  function FromName(s: string): (r: Option<Region>)
    ensures r.Some? ==> Name(r.value) == s
  {
    if s == "CHINA" then Some(China)
    else if s == "TAIWAN" then Some(Taiwan)
    else if s == "MONGOLIA" then Some(Mongolia)
    else if s == "HONG KONG" then Some(HongKong)
    else None
  }

  /** Every region is found again under its own name. */
  lemma FromNameOfName(r: Region)
    ensures FromName(Name(r)) == Some(r)
  {
    match r
    case China =>
    case Taiwan => assert "TAIWAN" != "CHINA" by { assert "TAIWAN"[0] != "CHINA"[0]; }
    case Mongolia =>
      assert "MONGOLIA" != "CHINA" by { assert "MONGOLIA"[0] != "CHINA"[0]; }
      assert "MONGOLIA" != "TAIWAN" by { assert "MONGOLIA"[0] != "TAIWAN"[0]; }
    case HongKong =>
      assert "HONG KONG" != "CHINA" by { assert "HONG KONG"[0] != "CHINA"[0]; }
      assert "HONG KONG" != "TAIWAN" by { assert "HONG KONG"[0] != "TAIWAN"[0]; }
      assert "HONG KONG" != "MONGOLIA" by { assert "HONG KONG"[0] != "MONGOLIA"[0]; }
  }

  /** Distinct regions have distinct names, so a name table has one entry per region. */
  lemma NamesDistinct(a: Region, b: Region)
    requires a != b
    ensures Name(a) != Name(b)
  {
    FromNameOfName(a);
    FromNameOfName(b);
  }

  /** One value per region, as the scripts' `{ CHINA: …, TAIWAN: …, … }` objects. */
  datatype Table<T> = Table(china: T, taiwan: T, mongolia: T, hongKong: T) {
    function Get(r: Region): T {
      match r
      case China => china
      case Taiwan => taiwan
      case Mongolia => mongolia
      case HongKong => hongKong
    }

    /** `table[name]`: the entry of the region with that name, `None` (undefined) for an unknown name. */
    function Lookup(name: string): (r: Option<T>)
      ensures r.Some? <==> FromName(name).Some?
      ensures r.Some? ==> r.value == Get(FromName(name).value)
    {
      match FromName(name)
      case None => None
      case Some(g) => Some(Get(g))
    }
  }

  /** Looking a table up by a region's own name gives that region's entry. */
  lemma LookupByName<T>(t: Table<T>, r: Region)
    ensures t.Lookup(Name(r)) == Some(t.Get(r))
  {
    FromNameOfName(r);
  }
}
