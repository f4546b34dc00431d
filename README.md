# Photo-record catalog: a verified Dafny model

This project models the catalog core of a small C++ photo-record manager.

- **Dates** (`dates.dfy`) covers `csc::date`:
  - a `Time` of day held as a 32-bit millisecond count, with its range-checked and unchecked constructors;
  - the `TimeSplit` decomposition into `uint8_t` hours, minutes, seconds and milliseconds;
  - the `Milli`/`Second`/`Minute`/`Hour` unit structs and their `operator/` compositions, in 32-bit arithmetic;
  - `DateTime`, whose five comparison operators join the date comparison and the time comparison with a logical AND.
- **Records** (`records.dfy`) covers `ImageRecord`: the nine-tag `Genre`, the record class with its setters, the date-only `operator<`, and both text forms.
- **Album** (`album.dfy`) covers `ImageAlbum`:
  - the vector of records;
  - the `std::lower_bound` insertion of `emplace`;
  - the first/next/previous browsing cursor;
  - the newline-joined text.
- **Manager** (`manager.dfy`) covers `ImageManager`: `add_image` and the four linear-scan searches.
- **Calendar** (`calendar.dfy`) covers the leap-year and days-per-month lambdas of the user interface, and the numeric bounds its date and time prompts accept.
- **Options** (`options.dfy`) covers `ComptimeString`, `ComptimePair` and `OptionPack` with its bounds-checked `value_at`.
- `text.dfy` holds decimal rendering and zero padding. `wrappers.dfy` holds the `Option`/`Result` values.

How the C++ is represented:
- Exceptions become `Err(OutOfRange(message))` results.
- `std::uint32_t` and `std::uint8_t` wrap-around is written out with `% 0x1_0000_0000` and `% 0x100`. The types `U32` and `U8` bound the stored values, including the four `TimeSplit` fields.
- `current_image_` is never initialised by the album constructors, so it is an `Option<nat>` that starts as `None`.
- No constructor writes `id_`. The model therefore passes the id to the record constructor and provides an `IdAllocator` that plays the role of `next_id`, starting at `BeginId` = 1.

Two behaviours of the code are worth knowing, and the model keeps both as written:
- **`DateTime` order.** The comparison operators (include/csc/date.hpp:173-192) combine date and time with AND. The result is a componentwise partial order, not the lexicographic order a date-time comparison usually has.
  - Two records on different days at the same time of day are never `<` each other.
  - `search_between_dates` keeps a record only when both its date and its time lie within the bounds.
  - In the sample data, every record is at 00:00. A search from 3 January to 4 January at midnight therefore returns four records (Kermit, Mourne Mountains, Homer Simpson, Red Kite).
  - `emplace` can put a record out of order. `std::lower_bound` needs a vector partitioned for the new record, and an album with no inversions need not be. The binary search can then stop where a record < the new one lies further on (`Album.EmplaceCanInvert`). The album therefore need not stay sorted.
- **`TimeSplit::to_string`** prints `"{}h {}min {}s {}ms"`. The separate `operator<<` prints `"m "` for the minutes and is not modelled.

## Model

| member | source | states |
|---|---|---|
| Dates.TimeOf | include/csc/date.hpp:23-27 | construction from a raw count fails with out_of_range "Time out of range" exactly when the count is one day (86,400,000 ms) or more; otherwise the count is stored unchanged and is within the day |
| Dates.TimeOfParts | include/csc/date.hpp:29-34 | the component constructor stores hour·3,600,000 + minute·60,000 + second·1,000 + milli reduced modulo 2^32, with no range check; the sum is exact when it fits 32 bits |
| Dates.RatioProducts | include/csc/date.hpp:37-59 | the millisecond-per-unit ratios are products of one another: 60,000 = 60·1,000, 3,600,000 = 60·60,000, 86,400,000 = 24·3,600,000 |
| Dates.TimeOrder | include/csc/date.hpp:130-149 | the Time comparisons are the integer order on the count: == is identity, <= is a total order, < is <= without equality, and > and >= are the converses |
| Dates.SplitOf | include/csc/date.hpp:69-77 | every split field fits in 8 bits; for an in-day count the hours are count / 3,600,000 < 24, minutes < 60, seconds < 60, and the millisecond field is count mod 1000 truncated to 8 bits |
| Dates.NewTimeSplit | include/csc/date.hpp:69-77 | the step-by-step constructor (divide, then reduce the count with %=) yields the same split as the closed form |
| Dates.SplitTotalRoundTrip | include/csc/date.hpp:110-115 | total_time_ms gives back an in-day count exactly when count mod 1000 < 256, because the millisecond field is uint8_t |
| Dates.SplitOfParts | include/csc/date.hpp:69-77 | composing a clock reading (h < 24, m < 60, s < 60, ms < 1000) and splitting it returns h, m and s unchanged and ms mod 256 |
| Dates.SplitTruncatesMilliseconds | include/csc/date.hpp:123-126 | witness: the count 999 splits to a millisecond field of 231, so total_time_ms differs from the count |
| Dates.UnitToTime | include/csc/date.hpp:204-228 | a unit count is multiplied in 32-bit arithmetic and range-checked: when the product fits it fails iff the product is one day or more, and any accepted result holds the product modulo 2^32 |
| Dates.MilliToTime | include/csc/date.hpp:204-207 | Milli{x} converts to x ms, failing iff x is one day or more |
| Dates.SecondToTime | include/csc/date.hpp:208-214 | Second{s} converts to s·1,000 ms when that fits 32 bits, failing iff it is one day or more |
| Dates.MinuteToTime | include/csc/date.hpp:215-221 | Minute{m} converts to m·60,000 ms when that fits 32 bits, failing iff it is one day or more |
| Dates.HourToTime | include/csc/date.hpp:222-228 | Hour{h} converts to h·3,600,000 ms when that fits 32 bits, failing iff it is one day or more |
| Dates.HourConversionWraps | include/csc/date.hpp:222-228 | witness: Hour{1194} wraps in 32 bits to 3,432,704 ms and passes the range check |
| Dates.HourMinute | include/csc/date.hpp:246-250 | Hour / Minute is Minute{h·60 + m} when it fits 32 bits |
| Dates.MinuteSecond | include/csc/date.hpp:251-255 | Minute / Second is Second{m·60 + s} when it fits 32 bits |
| Dates.SecondMilli | include/csc/date.hpp:256-260 | Second / Milli is Milli{s·1,000 + x} when it fits 32 bits |
| Dates.HourSecond | include/csc/date.hpp:261-267 | Hour / Second is Second{h·3,600 + s} when it fits 32 bits |
| Dates.MinuteMilli | include/csc/date.hpp:268-272 | Minute / Milli is Milli{m·60,000 + x} when it fits 32 bits |
| Dates.HourMilli | include/csc/date.hpp:273-276 | Hour / Milli is Milli{h·3,600,000 + x} when it fits 32 bits |
| Dates.CompositionAddsDurations | include/csc/date.hpp:246-276 | for all six overloads, composing and then converting equals range-checking the sum of the two durations, as long as nothing wraps |
| Dates.DateOrder | include/csc/date.hpp:199 | the year_month_day order is a strict total order, and <= is not-greater |
| Dates.DateTimeEqualIsIdentity | include/csc/date.hpp:189-192 | DateTime == holds iff both date and time are equal |
| Dates.DateTimeConverse | include/csc/date.hpp:181-188 | DateTime > and >= are the converses of < and <= |
| Dates.DateTimeLessEqPartialOrder | include/csc/date.hpp:177-180 | DateTime <= is reflexive, antisymmetric and transitive |
| Dates.DateTimeLessStrictOrder | include/csc/date.hpp:173-176 | DateTime < is irreflexive, transitive and asymmetric, and it implies <= with inequality |
| Dates.SameDateIncomparable | include/csc/date.hpp:173-184 | on the same date, two times are neither < nor > each other |
| Dates.SameTimeNeverLess | include/csc/date.hpp:173-176 | two date-times with the same time of day are never < each other |
| Dates.DateTimeOrderNotTotal | include/csc/date.hpp:177-180 | witness: an earlier day at a later hour and a later day at midnight are unrelated by <= in both directions |
| Dates.LessRefinesLexicographic | include/csc/date.hpp:173-176 | DateTime < implies the lexicographic order, but a lexicographically smaller date-time on the same date need not be < |
| Text.DecimalValueOfNatText | src/ImageRecord.cpp:26-27 | the decimal text of a number reads back as that number |
| Text.NatTextInjective | src/ImageRecord.cpp:26-27 | distinct ids print as distinct digit strings |
| Text.ZeroPad | include/csc/date.hpp:194-196 | padding keeps the text as a suffix, fills the front with '0', and reaches the field width |
| Records.GenreEquality | include/csc/ImageRecord.hpp:65-72 | Genre == is tag identity and != is its negation |
| Records.DescriptionLengths | include/csc/ImageRecord.hpp:81-110 | all nine tags have a description, with lengths 92, 92, 77, 85, 91, 91, 58, 101 and 64 |
| Records.DescriptionsDistinct | include/csc/ImageRecord.hpp:81-110 | two tags with the same description are the same tag |
| Records.ImageRecord.constructor | include/csc/ImageRecord.hpp:167-175 | the five arguments are stored unchanged; the getters are the fields themselves |
| Records.ImageRecord.SetTitle | include/csc/ImageRecord.hpp:136-138 | sets the title and nothing else; there is no setter for id or date taken |
| Records.ImageRecord.SetDescription | include/csc/ImageRecord.hpp:139-142 | sets the description and nothing else |
| Records.ImageRecord.SetGenre | include/csc/ImageRecord.hpp:143-145 | sets the genre and nothing else |
| Records.ImageRecord.SetThumbnailPath | include/csc/ImageRecord.hpp:146-149 | sets the thumbnail path and nothing else |
| Records.HeaderText | include/csc/ImageRecord.hpp:129-133 | the text is exactly "Title: ", the title, ", Description: ", the description, ", Genre: ", the genre text, ", Date taken: " and the date text, each part at the offset the lengths before it add up to |
| Records.RecordText | src/ImageRecord.cpp:25-29 | the text starts "Id: " and a digit string that reads back as the id, then ", ", then the header text with the fields in the order title, description, genre, date |
| Records.RecordLessByDateOnly | include/csc/ImageRecord.hpp:116-119 | records with the same dates taken compare alike, whatever their titles, descriptions, genres, paths or ids |
| Records.RecordLessStrictOrder | include/csc/ImageRecord.hpp:116-119 | record < is a strict partial order |
| Records.IdAllocator.constructor | src/ImageRecord.cpp:11-12 | the counter starts at BeginId = 1 and has issued nothing |
| Records.IdAllocator.Allocate | src/ImageRecord.cpp:11-12 | hands out the counter's value, which was never issued before, and advances the counter by one |
| Records.NewImageRecord | src/ImageRecord.cpp:14-23 | a new record holds a never-issued id and the five arguments unchanged |
| Album.InsertRemoveRoundTrip | include/csc/ImageAlbum.hpp:54-58 | inserting at an index and erasing at that index restores the vector; the insertion adds exactly the new record to the multiset |
| Album.InsertKeepsOrder | include/csc/ImageAlbum.hpp:54-58 | the records before the insertion point stay put and those after it move up by one, keeping their relative order |
| Album.LowerBound | include/csc/ImageAlbum.hpp:55-56 | the loop returns the index of the halving search (`LowerBoundIndex`); that index is a boundary (the element before is < the new record and the one at it is not); on a partitioned vector this is the lower bound; with no element < the new record it is 0 |
| Album.SearchFromAfterTrue | include/csc/ImageAlbum.hpp:55-56 | a search that starts just after a record < the new one, or at the front, stops just after such a record, or at the front |
| Album.SearchFromAtFalse | include/csc/ImageAlbum.hpp:55-56 | a search whose range is followed by a record that is not < the new one, or by the end, stops at such a record, or at the end |
| Album.BoundaryIsLowerBound | include/csc/ImageAlbum.hpp:55-56 | on a partitioned vector a boundary is the lower bound and is unique |
| Album.InsertAtLowerBoundKeepsOrder | include/csc/ImageAlbum.hpp:54-58 | inserting at the lower bound of a partitioned vector without inversions leaves it without inversions |
| Album.SameTimeNoneLess | include/csc/ImageAlbum.hpp:54-58 | when all stored records share the new record's time of day, none is < it, so emplace inserts at index 0 |
| Album.ImageAlbum.constructor | include/csc/ImageAlbum.hpp:19-25 | both constructors keep the records in the given order, unsorted, with the cursor unset |
| Album.ImageAlbum.IsEmpty | include/csc/ImageAlbum.hpp:66 | true iff there are no records |
| Album.ImageAlbum.GetFirstImage | include/csc/ImageAlbum.hpp:35-38 | the cursor becomes 0 even on an empty album; the result is element 0, or, when the album is empty, the out_of_range that libstdc++'s `vector::at` throws |
| Album.ImageAlbum.GetNextImage | include/csc/ImageAlbum.hpp:40-45 | on a non-empty album, a cursor at or past the last index fails with "No next image." and stays put; otherwise the cursor moves forward onto a stored record, which is returned |
| Album.ImageAlbum.GetPreviousImage | include/csc/ImageAlbum.hpp:47-52 | a cursor at 0 fails with "No previous image." and stays put, even on an empty album; otherwise the cursor moves back onto a stored record, which is returned |
| Album.ImageAlbum.Emplace | include/csc/ImageAlbum.hpp:54-58 | the new vector is the old one with the record inserted at the index the binary search returns, which is a boundary, and the lower bound when the old vector is partitioned; the size grows by one and the multiset gains exactly the record |
| Album.TerminatedIsJoinedPlusNewline | include/csc/ImageAlbum.hpp:68-76 | appending every text followed by "\n" gives the texts joined by "\n" plus one final "\n" |
| Album.JoinLines | include/csc/ImageAlbum.hpp:70-75 | the append loop followed by erasing the last character yields the texts joined by "\n" with no trailing newline |
| Album.EmplaceCanInvert | include/csc/ImageAlbum.hpp:54-58 | witness: three records in order, none < an earlier one, and a new record for which the vector is not partitioned; the search returns 1, and inserting there puts the third record, which is < the new one, after it |
| Album.ImageAlbum.ToText | include/csc/ImageAlbum.hpp:68-76 | for a non-empty album, the string form is the records' id-prefixed texts (`ToString`, src/ImageRecord.cpp:25-29), in order, joined by "\n" |
| Manager.WithTitleMembers | include/csc/ImageManager.hpp:41-50 | a record is in the title filter iff it is stored and its title is exactly equal to the argument |
| Manager.WithGenreMembers | include/csc/ImageManager.hpp:52-61 | a record is in the genre filter iff it is stored and its genre is equal |
| Manager.TakenBetweenMembers | include/csc/ImageManager.hpp:63-74 | a record is in the date filter iff it is stored and its date is >= start and <= end under the componentwise comparison |
| Manager.SingleInstantRange | include/csc/ImageManager.hpp:63-74 | with start == end, a date passes the range test iff it equals start |
| Manager.ReversedRangeEmpty | include/csc/ImageManager.hpp:63-74 | when start is not <= end (which covers end < start and bounds unrelated either way), the date search finds nothing |
| Manager.ImageManager.constructor | include/csc/ImageManager.hpp:17 | the default manager owns a new, empty album |
| Manager.ImageManager.WithImages | include/csc/ImageManager.hpp:18-21 | the variadic constructor hands the records to the album in argument order |
| Manager.ImageManager.AddImage | include/csc/ImageManager.hpp:23-25 | add_image changes the album exactly as emplace does |
| Manager.ImageManager.SearchId | include/csc/ImageManager.hpp:31-39 | returns the first record in album order with that id, and nothing iff no record has it |
| Manager.ImageManager.SearchTitle | include/csc/ImageManager.hpp:41-50 | returns, in album order, the records whose title equals the argument, leaving the album unchanged |
| Manager.ImageManager.SearchGenre | include/csc/ImageManager.hpp:52-61 | returns, in album order, the records with an equal genre, leaving the album unchanged |
| Manager.ImageManager.SearchBetweenDates | include/csc/ImageManager.hpp:63-74 | returns, in album order, the records whose date taken is >= start and <= end, leaving the album unchanged |
| Manager.ImageManager.GetAllImages | include/csc/ImageManager.hpp:76-79 | returns the owned album itself |
| Manager.ImageManager.IsEmpty | include/csc/ImageManager.hpp:81-83 | true iff the album holds no records |
| Calendar.DaysPerMonth | src/UserInterface.cpp:217-231 | February has 29 days iff the year is a Gregorian leap year and 28 otherwise; months 4, 6, 9 and 11 have 30 days; the others have 31; every value lies in [28, 31] |
| Calendar.YearLength | src/UserInterface.cpp:217-231 | the twelve month lengths add up to 366 in a leap year and 365 otherwise |
| Calendar.LeapCycle | src/UserInterface.cpp:218-221 | the leap-year rule repeats every 400 years |
| Calendar.DateInputIsCalendarDate | src/UserInterface.cpp:211-237 | an accepted date has at most 31 days, at most 30 in April, June, September and November, and a 29 February only in a leap year |
| Calendar.TimeInputInDay | src/UserInterface.cpp:239-249 | any accepted clock reading composes to at most 86,399,999 ms, which fits 32 bits and passes the Time range check; 23:59:59.999 reaches the bound |
| Options.ComptimeString.Str | include/csc/OptionPack.hpp:19-21 | str() has MySize characters, which counts the terminating NUL |
| Options.ComptimeString.CStr | include/csc/OptionPack.hpp:22 | c_str() read as a C string is the longest NUL-free prefix of the data |
| Options.FromLiteral | include/csc/OptionPack.hpp:16-18 | the consteval constructor copies the literal together with its NUL |
| Options.LiteralRoundTrip | include/csc/OptionPack.hpp:16-22 | a literal without embedded NUL reads back whole through c_str(), and str() is the literal followed by NUL |
| Options.Pair | include/csc/OptionPack.hpp:30-31 | the pair keeps the value given and a name of the literal's length plus one |
| Options.OptionPack.Options | include/csc/OptionPack.hpp:49 | Options has Size entries, the pairs' str() in declaration order |
| Options.OptionPack.OptionsCStr | include/csc/OptionPack.hpp:50 | OptionsCStr has Size entries, the pairs' c_str() in declaration order |
| Options.OptionPack.Values | include/csc/OptionPack.hpp:51 | Values has Size entries, the pairs' values in declaration order |
| Options.OptionPack.ValueAt | include/csc/OptionPack.hpp:59-64 | fails with out_of_range "index out of range" iff the index is >= Size; otherwise returns that pair's value |
| Options.OptionNameAndValue | include/csc/OptionPack.hpp:30-38 | the name an option shows is the literal it was declared with, and selecting its index yields its value |
| Options.GenrePack | src/UserInterface.cpp:195-205 | the genre menu has nine options |
| Options.GenrePackCoversGenres | src/UserInterface.cpp:195-205 | selecting a tag's position in the genre menu yields that tag, and index 9 is out of range |

## Left out

- Console and window I/O, the interactive prompt loops, `read_number_between`, `get_file_path` and `show_images` are not modelled. This includes `std::stoi` parsing and `std::filesystem::exists`. Only the numeric bounds that the prompts pass are kept.
- `Extractor`, the menu dispatch in `Command`, `core::folding_type`, `main` and the SFML viewer are outside this model.
- The sample data in `RequiredImages.cpp` is not transcribed. `Album.SameTimeNoneLess` covers its one ordering effect: all records are at 00:00.
- `std::format`'s `%F` rendering is modelled for years 0 and up, as four or more zero-padded digits. Negative years and invalid year_month_day values are not modelled. `year_month_day` itself is a (year, month, day) triple of naturals.
- `operator<<` stream printing is not modelled for `Time`, `TimeSplit`, `DateTime`, `ImageRecord`, `ImageAlbum`, `ImageManager` or the pointer vector. Neither is the `std::cout` line in the out-of-line record constructor.
- `Text.ZeroPad`'s padding contract states the shape of the padded text. `DateText`, `TimeText` and `DateTimeText` carry no contract of their own: they are compositions, and their properties are stated by the members that use them.
- The `_ms`, `_s`, `_m` and `_h` literal operators are not modelled (the `_ms` one narrows through `std::int32_t`). The unit structs are built directly from their 32-bit values.
- Dates.UnitToTime, Dates.MilliToTime, Dates.SecondToTime, Dates.MinuteToTime, Dates.HourToTime: in the source the conversions are `noexcept`, so an out-of-range result terminates the program. The model returns the `Err` value instead.
- The header's inline constructor and `to_string` duplicate the out-of-line definitions in `ImageRecord.cpp`. Both `to_string` forms are modelled: `HeaderToString` and `ToString`. One constructor stands for both.
- The uninitialised `id_` is not modelled; the id is an explicit constructor argument. `next_id` is never read or advanced in the source, so `IdAllocator` is the counter `next_id` was evidently meant to be, not a transcription.
- The uninitialised `current_image_` is modelled as an unset cursor.
- Album.ImageAlbum.GetNextImage: it requires a set cursor and a non-empty album. On an empty album `images_.size() - 1` wraps, the test never fails, and the read is out of bounds, which is undefined behaviour.
- Album.ImageAlbum.GetPreviousImage: it requires a set cursor no greater than the size. A larger cursor makes `images_[--current_image_]` read out of bounds.
- An unset cursor is the uninitialised `current_image_` of the source. Reading it is undefined, so both methods require a set cursor.
- Album.ImageAlbum.ToText: it requires a non-empty album, because the source erases before `end()` of an empty string, which is undefined.
- The album holds copies of records in the source. The model holds references, so a record changed through a setter after `emplace` would be seen changed in the album. Search results are pointers into the album in the source and references here. The two agree only until the next `emplace` or `add_image`: `images_.insert` can reallocate or shift the vector, so earlier pointers dangle or point at another record, while the model's references keep pointing at the same record.
- The forwarding overloads `emplace(args...)` (include/csc/ImageAlbum.hpp:60-64) and `add_image(args...)` (include/csc/ImageManager.hpp:26-29) are not modelled separately. The model takes an already-built record. The `emplace` overload is constrained on `ImageAlbum` being constructible rather than `ImageRecord`; the `add_image` overload has no constraint.
- The C++ standard leaves `std::lower_bound` unspecified on a range that is not partitioned. `Album.LowerBound` follows the halving search of libstdc++, and the exact index is specific to it.
- The `what()` text of the `vector::at` failure is libstdc++'s, for index 0 of an empty vector. Other standard libraries word it differently.
- `begin()`/`end()` iteration is the `images` sequence itself. `get_images()` is the field.
- Records.DescriptionLengths: the nine description texts are checked through their lengths and two pairwise differences, not character by character in a contract.
