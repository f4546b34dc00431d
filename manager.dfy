/** csc::ImageManager: owns one album, adds records through emplace and
    answers searches by scanning the album in order. */
module Manager {
  import opened Wrappers
  import Dates
  import Records
  import Album

  type Record = Records.ImageRecord

  // ---------------------------------------------------- Search references

  /** The records whose title equals title exactly, in album order. */
  function WithTitle(s: seq<Record>, title: string): seq<Record>
    reads s
  {
    if s == [] then []
    else WithTitle(s[..|s| - 1], title) + (if s[|s| - 1].title == title then [s[|s| - 1]] else [])
  }

  /** The records whose genre equals genre, in album order. */
  function WithGenre(s: seq<Record>, genre: Records.Genre): seq<Record>
    reads s
  {
    if s == [] then []
    else WithGenre(s[..|s| - 1], genre) + (if s[|s| - 1].genre.Equals(genre) then [s[|s| - 1]] else [])
  }

  /** The test search_between_dates applies to each date taken. */
  predicate InRange(date: Dates.DateTime, start: Dates.DateTime, end: Dates.DateTime) {
    Dates.DateTimeGreaterEq(date, start) && Dates.DateTimeLessEq(date, end)
  }

  /** The records taken between start and end inclusive, in album order. */
  function TakenBetween(s: seq<Record>, start: Dates.DateTime, end: Dates.DateTime): seq<Record>
  {
    if s == [] then []
    else TakenBetween(s[..|s| - 1], start, end)
         + (if InRange(s[|s| - 1].dateTaken, start, end) then [s[|s| - 1]] else [])
  }

  /** A record is in the title search's result iff it is stored and has
      that title, and the result never repeats more than the album does. */
  lemma {:induction false} WithTitleMembers(s: seq<Record>, title: string, x: Record)
    ensures x in WithTitle(s, title) <==> x in s && x.title == title
    ensures |WithTitle(s, title)| <= |s|
  {
    if s != [] {
      WithTitleMembers(s[..|s| - 1], title, x);
      assert s == s[..|s| - 1] + [s[|s| - 1]];
    }
  }

  /** A record is in the genre search's result iff it is stored and has an
      equal genre. */
  lemma {:induction false} WithGenreMembers(s: seq<Record>, genre: Records.Genre, x: Record)
    ensures x in WithGenre(s, genre) <==> x in s && x.genre == genre
    ensures |WithGenre(s, genre)| <= |s|
  {
    if s != [] {
      WithGenreMembers(s[..|s| - 1], genre, x);
      assert s == s[..|s| - 1] + [s[|s| - 1]];
    }
  }

  /** A record is in the date search's result iff it is stored and its
      date taken passes the range test. */
  lemma {:induction false} TakenBetweenMembers(s: seq<Record>, start: Dates.DateTime,
                                               end: Dates.DateTime, x: Record)
    ensures x in TakenBetween(s, start, end) <==> x in s && InRange(x.dateTaken, start, end)
    ensures |TakenBetween(s, start, end)| <= |s|
  {
    if s != [] {
      TakenBetweenMembers(s[..|s| - 1], start, end, x);
      assert s == s[..|s| - 1] + [s[|s| - 1]];
    }
  }

  /** A range from one instant to itself holds exactly that instant: <= is
      antisymmetric even though it is only a partial order. */
  lemma SingleInstantRange(date: Dates.DateTime, t: Dates.DateTime)
    ensures InRange(date, t, t) <==> date == t
  {
    Dates.DateTimeLessEqPartialOrder(date, t, t);
    Dates.DateTimeLessEqPartialOrder(t, date, t);
    Dates.DateTimeConverse(date, t);
  }

  /** A range whose start is not <= its end holds nothing; with the
      componentwise order that includes every end < start, and also bounds
      that are unrelated either way. */
  lemma {:induction false} ReversedRangeEmpty(s: seq<Record>, start: Dates.DateTime, end: Dates.DateTime)
    requires !Dates.DateTimeLessEq(start, end)
    ensures TakenBetween(s, start, end) == []
  {
    if s != [] {
      ReversedRangeEmpty(s[..|s| - 1], start, end);
      var d := s[|s| - 1].dateTaken;
      Dates.DateTimeConverse(d, start);
      Dates.DateTimeLessEqPartialOrder(start, d, end);
    }
  }

  // ------------------------------------------------------------- Manager

  class ImageManager {
    const album: Album.ImageAlbum

    /** The default constructor: an empty album. */
    constructor ()
      ensures fresh(album) && album.images == [] && album.cursor == None
    {
      album := new Album.ImageAlbum([]);
    }

    /** The variadic constructor hands its records to the album in argument
        order. */
    constructor WithImages(images: seq<Record>)
      ensures fresh(album) && album.images == images && album.cursor == None
    {
      album := new Album.ImageAlbum(images);
    }

    /** add_image: exactly the album's emplace. */
    method AddImage(image: Record)
      modifies album`images
      ensures album.images == Album.Insert(old(album.images),
                                           Album.LowerBoundIndex(old(album.images), image), image)
      ensures exists k :: Album.IsBoundary(old(album.images), image, k)
                          && album.images == Album.Insert(old(album.images), k, image)
      ensures Album.Partitioned(old(album.images), image) ==>
                exists k :: Album.IsLowerBound(old(album.images), image, k)
                            && album.images == Album.Insert(old(album.images), k, image)
      ensures |album.images| == |old(album.images)| + 1
      ensures multiset(album.images) == multiset(old(album.images)) + multiset{image}
    {
      album.Emplace(image);
    }

    /** search_id: the first record in album order with that id, and none
        iff no record has it. */
    method SearchId(id: nat) returns (r: Option<Record>)
      ensures r.None? <==> forall i :: 0 <= i < |album.images| ==> album.images[i].id != id
      ensures r.Some? ==> exists k :: && 0 <= k < |album.images| && album.images[k] == r.value
                                      && r.value.id == id
                                      && forall i :: 0 <= i < k ==> album.images[i].id != id
    {
      var images := album.images;
      for i := 0 to |images|
        invariant forall j :: 0 <= j < i ==> images[j].id != id
      {
        if images[i].id == id {
          return Some(images[i]);
        }
      }
      return None;
    }

    /** search_title: every record whose title is equal to the argument,
        in album order. */
    method SearchTitle(title: string) returns (out: seq<Record>)
      ensures out == WithTitle(album.images, title)
    {
      var images := album.images;
      out := [];
      for i := 0 to |images|
        invariant out == WithTitle(images[..i], title)
      {
        assert images[..i + 1][..i] == images[..i];
        if images[i].title == title {
          out := out + [images[i]];
        }
      }
      assert images[..|images|] == images;
    }

    /** search_genre: every record with an equal genre, in album order. */
    method SearchGenre(genre: Records.Genre) returns (out: seq<Record>)
      ensures out == WithGenre(album.images, genre)
    {
      var images := album.images;
      out := [];
      for i := 0 to |images|
        invariant out == WithGenre(images[..i], genre)
      {
        assert images[..i + 1][..i] == images[..i];
        if images[i].genre.Equals(genre) {
          out := out + [images[i]];
        }
      }
      assert images[..|images|] == images;
    }

    /** search_between_dates: every record whose date taken is >= start
        and <= end, in album order. */
    method SearchBetweenDates(start: Dates.DateTime, end: Dates.DateTime) returns (out: seq<Record>)
      ensures out == TakenBetween(album.images, start, end)
    {
      var images := album.images;
      out := [];
      for i := 0 to |images|
        invariant out == TakenBetween(images[..i], start, end)
      {
        assert images[..i + 1][..i] == images[..i];
        var date := images[i].dateTaken;
        if InRange(date, start, end) {
          out := out + [images[i]];
        }
      }
      assert images[..|images|] == images;
    }

    /** get_all_images: the album itself, not a copy. */
    function GetAllImages(): (a: Album.ImageAlbum)
      ensures a == album
    {
      album
    }

    /** is_empty: the album's is_empty. */
    function IsEmpty(): (b: bool)
      reads album
      ensures b <==> album.images == []
    {
      album.IsEmpty()
    }
  }
}
