/** csc::ImageRecord: one catalog entry, its Genre, and the id counter. */
module Records {
  import Text
  import Dates

  // ------------------------------------------------------------------ Genre

  /** ImageRecord::Genre: a closed set of nine tags. The static factories
      Genre::Astronomy() ... Genre::Other() are the constructors. */
  datatype Genre = Astronomy | Architecture | Sport | Landscape | Portrait
                 | Nature | Aerial | Food | Other
  {
    /** operator== compares the tags. */
    predicate Equals(other: Genre) {
      this == other
    }

    /** operator!= compares the tags. */
    predicate NotEquals(other: Genre) {
      this != other
    }

    /** The tag's position in the enum Tag. */
    function Ordinal(): (i: nat)
      ensures i < |Descriptions|
    {
      match this
      case Astronomy => 0
      case Architecture => 1
      case Sport => 2
      case Landscape => 3
      case Portrait => 4
      case Nature => 5
      case Aerial => 6
      case Food => 7
      case Other => 8
    }

    /** to_string: the fixed description of the tag (the switch over the tag
        is a lookup by the tag's position). */
    function Description(): string {
      Descriptions[Ordinal()]
    }
  }

  /** The nine description texts, in the order of the tags. */
  const Descriptions: seq<string> := [
    "Photography or imaging of astronomical objects, celestial events, or areas of the night sky.",
    "Focuses on the capture of images that accurately represent the design and feel of buildings.",
    "Covers all types of sports and can be considered a branch of photojournalism.",
    "The study of the textured surface of the Earth and features images of natural scenes.",
    "Images of a person or a group of people where the face and facial features are predominant.",
    "Focused on elements of the outdoors including sky, water, and land, or the flora and fauna.",
    "Images taken from an aircraft or other airborne platforms.",
    "Captures everything related to food, from fresh ingredients and plated dishes to the cooking process.",
    "Covers just about any other type of image and photography genre."
  ]

  /** == is tag identity and != is its negation. */
  lemma GenreEquality(a: Genre, b: Genre)
    ensures a.Equals(b) <==> a == b
    ensures a.NotEquals(b) <==> !a.Equals(b)
  {
  }

  /** The lengths of the nine texts. */
  lemma DescriptionLengths()
    ensures |Descriptions| == 9
    ensures |Descriptions[0]| == 92 && |Descriptions[1]| == 92 && |Descriptions[2]| == 77
    ensures |Descriptions[3]| == 85 && |Descriptions[4]| == 91 && |Descriptions[5]| == 91
    ensures |Descriptions[6]| == 58 && |Descriptions[7]| == 101 && |Descriptions[8]| == 64
  {
  }

  /** No two tags share a description, so the description identifies the tag:
      the lengths separate all pairs but two, and those two differ in text. */
  lemma DescriptionsDistinct(a: Genre, b: Genre)
    ensures a.Description() == b.Description() ==> a == b
  {
    DescriptionLengths();
    assert Descriptions[0] != Descriptions[1];
    assert Descriptions[4] != Descriptions[5];
  }

  // ------------------------------------------------------------ ImageRecord

  /** BeginId: the value next_id starts from. */
  const BeginId: nat := 1

  /** ImageRecord. The id and the date taken have no setter, so they are
      constants here; the other four fields are variables with setters. */
  class ImageRecord {
    const id: nat
    var title: string
    var description: string
    var genre: Genre
    const dateTaken: Dates.DateTime
    var thumbnailPath: string

    /** The constructor copies its five arguments. The source never assigns
        id_; here the id is an explicit argument (see IdAllocator). */
    constructor (id: nat, title: string, description: string, genre: Genre,
                 dateTaken: Dates.DateTime, thumbnailPath: string)
      ensures this.id == id && this.title == title && this.description == description
      ensures this.genre == genre && this.dateTaken == dateTaken
      ensures this.thumbnailPath == thumbnailPath
    {
      this.id := id;
      this.title := title;
      this.description := description;
      this.genre := genre;
      this.dateTaken := dateTaken;
      this.thumbnailPath := thumbnailPath;
    }

    method SetTitle(title: string)
      modifies this`title
      ensures this.title == title
      ensures description == old(description) && genre == old(genre)
      ensures thumbnailPath == old(thumbnailPath)
    {
      this.title := title;
    }

    method SetDescription(description: string)
      modifies this`description
      ensures this.description == description
      ensures title == old(title) && genre == old(genre)
      ensures thumbnailPath == old(thumbnailPath)
    {
      this.description := description;
    }

    method SetGenre(genre: Genre)
      modifies this`genre
      ensures this.genre == genre
      ensures title == old(title) && description == old(description)
      ensures thumbnailPath == old(thumbnailPath)
    {
      this.genre := genre;
    }

    method SetThumbnailPath(path: string)
      modifies this`thumbnailPath
      ensures thumbnailPath == path
      ensures title == old(title) && description == old(description)
      ensures genre == old(genre)
    {
      thumbnailPath := path;
    }

    /** to_string as the header defines it, over the fields' texts. */
    function HeaderToString(): string
      reads this
    {
      HeaderText(title, description, genre.Description(), Dates.DateTimeText(dateTaken))
    }

    /** to_string as ImageRecord.cpp defines it, over the fields' texts. */
    function ToString(): string
      reads this
    {
      RecordText(id, title, description, genre.Description(), Dates.DateTimeText(dateTaken))
    }
  }

  /** The header's text: each field after its label, in the order title,
      description, genre, date, and nothing else. */
  function HeaderText(title: string, description: string, genreText: string,
                      dateText: string): (s: string)
    ensures 7 + |title| + 15 + |description| + 9 <= |s|
    ensures s[..7] == "Title: " && s[7..7 + |title|] == title
    ensures s[7 + |title|..7 + |title| + 15] == ", Description: "
    ensures s[7 + |title| + 15..7 + |title| + 15 + |description|] == description
    ensures s[7 + |title| + 15 + |description|..7 + |title| + 15 + |description| + 9] == ", Genre: "
    ensures var g := 7 + |title| + 15 + |description| + 9;
            && |s| == g + |genreText| + 14 + |dateText|
            && s[g..g + |genreText|] == genreText
            && s[g + |genreText|..g + |genreText| + 14] == ", Date taken: "
            && s[g + |genreText| + 14..] == dateText
  {
    Text.LabelledFields("Title: ", title, ", Description: ", description,
                        ", Genre: ", genreText, ", Date taken: ", dateText);
    "Title: " + title + ", Description: " + description + ", Genre: " + genreText
      + ", Date taken: " + dateText
  }

  /** The record's text: "Id: ", the id in decimal, ", ", then the header's
      text. The id can be read back from its digits. */
  function RecordText(id: nat, title: string, description: string, genreText: string,
                      dateText: string): (s: string)
    ensures var k := |Text.NatText(id)|;
            && 4 + k + 2 <= |s|
            && s[..4] == "Id: "
            && Text.IsDigits(s[4..4 + k]) && Text.DecimalValue(s[4..4 + k]) == id
            && s[4 + k..4 + k + 2] == ", "
            && s[4 + k + 2..] == HeaderText(title, description, genreText, dateText)
  {
    var digits := Text.NatText(id);
    var header := HeaderText(title, description, genreText, dateText);
    Text.DecimalValueOfNatText(id);
    Text.LabelledSlices("Id: ", digits, ", " + header);
    Text.LabelledSlices(", ", header, "");
    "Id: " + digits + (", " + header)
  }

  /** operator<: records compare by the date taken and nothing else. */
  predicate RecordLess(a: ImageRecord, b: ImageRecord) {
    Dates.DateTimeLess(a.dateTaken, b.dateTaken)
  }

  /** Title, description, genre, path and id play no part in the ordering. */
  lemma RecordLessByDateOnly(a: ImageRecord, b: ImageRecord, c: ImageRecord, d: ImageRecord)
    requires a.dateTaken == c.dateTaken && b.dateTaken == d.dateTaken
    ensures RecordLess(a, b) <==> RecordLess(c, d)
  {
  }

  /** Record < inherits the strict partial order of DateTime <. */
  lemma RecordLessStrictOrder(a: ImageRecord, b: ImageRecord, c: ImageRecord)
    ensures !RecordLess(a, a)
    ensures RecordLess(a, b) ==> !RecordLess(b, a)
    ensures RecordLess(a, b) && RecordLess(b, c) ==> RecordLess(a, c)
  {
    Dates.DateTimeLessStrictOrder(a.dateTaken, b.dateTaken, c.dateTaken);
  }

  // ------------------------------------------------------------ Id counter

  /** next_id: declared and initialised to BeginId in ImageRecord.cpp, which
      never reads or advances it. This allocator is the counter next_id was
      evidently meant to be: it hands out BeginId, BeginId + 1, ... and never
      repeats. */
  class IdAllocator {
    var next: nat
    ghost var issued: set<nat>

    ghost predicate Valid()
      reads this
    {
      && BeginId <= next
      && forall i :: i in issued ==> BeginId <= i < next
    }

    constructor ()
      ensures Valid() && next == BeginId && issued == {}
    {
      next := BeginId;
      issued := {};
    }

    method Allocate() returns (id: nat)
      requires Valid()
      modifies this
      ensures Valid()
      ensures id == old(next) && next == old(next) + 1
      ensures id !in old(issued) && issued == old(issued) + {id}
    {
      id := next;
      next := next + 1;
      issued := issued + {id};
    }
  }

  /** A record built with the allocator's next id: its id was never issued
      before, so no two records built this way share an id. */
  method NewImageRecord(ids: IdAllocator, title: string, description: string, genre: Genre,
                        dateTaken: Dates.DateTime, thumbnailPath: string)
    returns (r: ImageRecord)
    requires ids.Valid()
    modifies ids
    ensures ids.Valid() && fresh(r)
    ensures r.id == old(ids.next) && r.id !in old(ids.issued)
    ensures ids.issued == old(ids.issued) + {r.id}
    ensures r.title == title && r.description == description && r.genre == genre
    ensures r.dateTaken == dateTaken && r.thumbnailPath == thumbnailPath
  {
    var id := ids.Allocate();
    r := new ImageRecord(id, title, description, genre, dateTaken, thumbnailPath);
  }
}
