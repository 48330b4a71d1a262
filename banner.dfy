/** The carousel banners (controllers/bannerController.js over models/Banner.js):
    the public slide list shows the active banners, newest first, and an admin
    creates a banner by uploading its image. */
module BannerController {
  import opened Common
  import opened Seqs

  /** A document of the Banner collection; `createdAt` is the timestamp Mongoose sets on insert. */
  datatype Banner = Banner(id: int, imageUrl: string, title: Option<string>, subtitle: Option<string>,
                           link: Option<string>, active: bool, description: Option<string>,
                           brand: Option<string>, buttonText: string, category: Option<string>,
                           price: Option<Number>, originalPrice: Option<Number>,
                           createdAt: int, updatedAt: int)

  /** The optional fields of a createBanner request body. */
  datatype BannerFields = BannerFields(title: Option<string>, subtitle: Option<string>,
                                       description: Option<string>, brand: Option<string>,
                                       buttonText: Option<string>, category: Option<string>,
                                       price: Option<Number>, originalPrice: Option<Number>,
                                       link: Option<string>)

  /** The structure a slide is mapped to for the front end. */
  datatype Slide = Slide(id: int, image: string, title: Option<string>, subtitle: Option<string>,
                         description: Option<string>, brand: Option<string>, buttonText: string,
                         category: Option<string>, price: Option<Number>,
                         originalPrice: Option<Number>, link: Option<string>)

  function ToSlide(b: Banner): Slide
  {
    Slide(b.id, b.imageUrl, b.title, b.subtitle, b.description, b.brand, b.buttonText,
          b.category, b.price, b.originalPrice, b.link)
  }

  function IsActive(): Banner -> bool
  {
    (b: Banner) => b.active
  }

  /** Sorted by `createdAt` descending. */
  ghost predicate NewestFirst(s: seq<Banner>)
  {
    forall i, j :: 0 <= i < j < |s| ==> s[i].createdAt >= s[j].createdAt
  }

  /** Sorted by `createdAt` descending with no two banners created at the same instant. */
  ghost predicate StrictlyNewestFirst(s: seq<Banner>)
  {
    forall i, j :: 0 <= i < j < |s| ==> s[i].createdAt > s[j].createdAt
  }

  /** A banner no older than any in a newest-first list can go in front of it. */
  lemma PrependNewest(x: Banner, t: seq<Banner>)
    requires NewestFirst(t)
    requires forall y :: y in t ==> y.createdAt <= x.createdAt
    ensures NewestFirst([x] + t)
  {
    assert forall j :: 0 <= j < |t| ==> t[j] in t;
  }

  /** Inserts `b` ahead of every banner not newer than it. */
  function InsertNewest(b: Banner, s: seq<Banner>): (r: seq<Banner>)
    requires NewestFirst(s)
    ensures NewestFirst(r)
    ensures multiset(r) == multiset(s) + multiset{b}
  {
    if s == [] then [b]
    else if b.createdAt >= s[0].createdAt then
      PrependNewest(b, s);
      [b] + s
    else
      var rest := InsertNewest(b, s[1..]);
      OlderThanHead(b, s, rest);
      PrependNewest(s[0], rest);
      assert s == [s[0]] + s[1..];
      [s[0]] + rest
  }

  /** Every banner of `s` after its head, and `b` when it is older, is no newer than the head. */
  lemma OlderThanHead(b: Banner, s: seq<Banner>, rest: seq<Banner>)
    requires NewestFirst(s) && s != [] && b.createdAt < s[0].createdAt
    requires multiset(rest) == multiset(s[1..]) + multiset{b}
    ensures forall x :: x in rest ==> x.createdAt <= s[0].createdAt
  {
    forall x | x in rest ensures x.createdAt <= s[0].createdAt {
      assert x in multiset(rest);
      if x != b {
        assert x in multiset(s[1..]);
        var j :| 0 <= j < |s[1..]| && s[1..][j] == x;
        assert s[j + 1] == x;
      }
    }
  }

  /** `sort({ createdAt: -1 })`, stable: banners created at the same instant keep
      their stored order. */
  function SortNewestFirst(s: seq<Banner>): (r: seq<Banner>)
    ensures NewestFirst(r)
    ensures multiset(r) == multiset(s)
  {
    if s == [] then []
    else
      assert s == [s[0]] + s[1..];
      InsertNewest(s[0], SortNewestFirst(s[1..]))
  }

  /** The banners getCarouselSlides shows, in its order. */
  function ActiveNewestFirst(banners: seq<Banner>): seq<Banner>
  {
    SortNewestFirst(Filter(banners, IsActive()))
  }

  /** The mapped slide list getCarouselSlides answers with. */
  function CarouselSlides(banners: seq<Banner>): seq<Slide>
  {
    var shown := ActiveNewestFirst(banners);
    seq(|shown|, k requires 0 <= k < |shown| => ToSlide(shown[k]))
  }

  /** The carousel shows every active banner and nothing else, each exactly as
      often as it is stored, newest first, one slide per banner in that order. */
  lemma CarouselShowsActiveNewestFirst(banners: seq<Banner>)
    ensures var shown := ActiveNewestFirst(banners);
      && NewestFirst(shown)
      && (forall b :: b in shown <==> b in banners && b.active)
      && (forall b: Banner :: b.active ==> multiset(shown)[b] == multiset(banners)[b])
      && |CarouselSlides(banners)| == |shown|
      && (forall k :: 0 <= k < |shown| ==> CarouselSlides(banners)[k] == ToSlide(shown[k]))
  {
    var shown := ActiveNewestFirst(banners);
    forall b ensures b in shown <==> b in banners && b.active {
      assert b in shown <==> b in multiset(shown);
      assert b in Filter(banners, IsActive()) <==> b in multiset(Filter(banners, IsActive()));
    }
    forall b: Banner | b.active ensures multiset(shown)[b] == multiset(banners)[b] {
      FilterCount(banners, IsActive(), b);
    }
  }

  /** The newest banner of both sequences is the same one. */
  lemma HeadsAgree(a: seq<Banner>, b: seq<Banner>)
    requires NewestFirst(a) && StrictlyNewestFirst(b)
    requires multiset(a) == multiset(b) && a != []
    ensures b != [] && a[0] == b[0]
  {
    assert a[0] in multiset(b);
    assert b != [];
    assert b[0] in multiset(a);
    var m :| 0 <= m < |b| && b[m] == a[0];
    var k :| 0 <= k < |a| && a[k] == b[0];
    assert a[0].createdAt >= b[0].createdAt;
    assert forall j :: 0 < j < |b| ==> b[0].createdAt > b[j].createdAt;
  }

  lemma TailsAgree(a: seq<Banner>, b: seq<Banner>)
    requires a != [] && b != [] && a[0] == b[0]
    requires multiset(a) == multiset(b)
    ensures multiset(a[1..]) == multiset(b[1..])
  {
    assert a == [a[0]] + a[1..];
    assert b == [b[0]] + b[1..];
    assert multiset(a[1..]) == multiset(a) - multiset{a[0]};
    assert multiset(b[1..]) == multiset(b) - multiset{b[0]};
  }

  /** A newest-first sequence and a strictly newest-first one holding the same
      banners are the same sequence. */
  lemma {:induction false} NewestFirstUnique(a: seq<Banner>, b: seq<Banner>)
    requires NewestFirst(a) && StrictlyNewestFirst(b)
    requires multiset(a) == multiset(b)
    ensures a == b
  {
    if a == [] {
      assert |b| == |multiset(b)| == 0;
    } else {
      HeadsAgree(a, b);
      TailsAgree(a, b);
      NewestFirstUnique(a[1..], b[1..]);
      assert a == [a[0]] + a[1..] && b == [b[0]] + b[1..];
    }
  }

  /** When no two active banners were created at the same instant, the carousel
      order is the one newest-first arrangement of the active banners. */
  lemma CarouselOrderIsUnique(banners: seq<Banner>, other: seq<Banner>)
    requires StrictlyNewestFirst(other)
    requires multiset(other) == multiset(Filter(banners, IsActive()))
    ensures ActiveNewestFirst(banners) == other
  {
    NewestFirstUnique(ActiveNewestFirst(banners), other);
  }

  /** The banner createBanner stores: active, and "Shop Now" when the body has no button text. */
  function NewBanner(id: int, imageUrl: string, f: BannerFields, now: int): Banner
  {
    Banner(id, imageUrl, f.title, f.subtitle, f.link, true, f.description, f.brand,
           f.buttonText.GetOr("Shop Now"), f.category, f.price, f.originalPrice, now, now)
  }

  /** The collection after createBanner: unchanged without an uploaded image path. */
  function CreatedBanner(banners: seq<Banner>, nextId: int, f: BannerFields, file: Option<string>, now: int): seq<Banner>
  {
    if file.None? || file.value == "" then banners
    else banners + [NewBanner(nextId, file.value, f, now)]
  }

  /** createBanner needs a non-empty image path; a created banner is active, appears on
      the carousel, and shows "Shop Now" when no button text was given. */
  lemma CreateBannerCases(banners: seq<Banner>, nextId: int, f: BannerFields, file: Option<string>, now: int)
    ensures file.None? || file.value == "" ==> CreatedBanner(banners, nextId, f, file, now) == banners
    ensures file.Some? && file.value != "" ==>
      var r := CreatedBanner(banners, nextId, f, file, now);
      var b := r[|r| - 1];
      && |r| == |banners| + 1 && r[..|banners|] == banners
      && b.imageUrl == file.value && b.active
      && (f.buttonText.None? ==> b.buttonText == "Shop Now")
      && (f.buttonText.Some? ==> b.buttonText == f.buttonText.value)
      && b in ActiveNewestFirst(r)
  {
    if file.Some? && file.value != "" {
      var r := CreatedBanner(banners, nextId, f, file, now);
      CarouselShowsActiveNewestFirst(r);
    }
  }

  /** The Banner collection. */
  class BannerCollection {
    var banners: seq<Banner>
    var nextId: int

    constructor ()
      ensures banners == []
    {
      banners := [];
      nextId := 1;
    }

    /** getCarouselSlides: the active banners, newest first, mapped to slides. */
    method GetCarouselSlides() returns (reply: Reply<Slide>)
      ensures reply.status == OK && reply.body.Items?
      ensures reply.body.values == CarouselSlides(banners)
    {
      reply := Reply(OK, Items(CarouselSlides(banners)));
    }

    /** createBanner: 400 without an image path, otherwise 201 with the stored banner. */
    method CreateBanner(f: BannerFields, file: Option<string>, now: int) returns (reply: Reply<Banner>)
      modifies this
      ensures banners == CreatedBanner(old(banners), old(nextId), f, file, now)
      ensures file.None? || file.value == "" ==>
                nextId == old(nextId) && reply == Reply(BadRequest, Message("Image is required"))
      ensures file.Some? && file.value != "" ==>
                nextId == old(nextId) + 1 && reply == Reply(Created, Item(NewBanner(old(nextId), file.value, f, now)))
    {
      if file.None? || file.value == "" {
        return Reply(BadRequest, Message("Image is required"));
      }
      var banner := NewBanner(nextId, file.value, f, now);
      banners := banners + [banner];
      nextId := nextId + 1;
      reply := Reply(Created, Item(banner));
    }
  }
}
