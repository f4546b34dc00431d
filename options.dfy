/** csc::ComptimeString, csc::ComptimePair and csc::OptionPack: compile-time
    tables of (name, value) options with a bounds-checked lookup. */
module Options {
  import opened Wrappers
  import Records

  const Nul: char := '\0'

  /** ComptimeString<MySize>: the characters of a string literal, including
      the terminating NUL the literal's array type counts. */
  datatype ComptimeString = ComptimeString(data: seq<char>)
  {
    /** str(): a view of all MySize characters, NUL included. */
    function Str(): (s: string)
      ensures |s| == |data|
    {
      data
    }

    /** c_str(): read as a C string, the characters before the first NUL. */
    function CStr(): (s: string)
      ensures |s| <= |data| && s == data[..|s|]
      ensures Nul !in s
      ensures |s| < |data| ==> data[|s|] == Nul
    {
      CPrefix(data)
    }
  }

  /** The characters of s before its first NUL (all of s if it has none). */
  function CPrefix(s: string): (p: string)
    ensures |p| <= |s| && p == s[..|p|]
    ensures Nul !in p
    ensures |p| < |s| ==> s[|p|] == Nul
  {
    if s == [] || s[0] == Nul then [] else [s[0]] + CPrefix(s[1..])
  }

  /** The consteval constructor copies the whole literal, NUL included. */
  function FromLiteral(text: string): (c: ComptimeString)
    ensures |c.Str()| == |text| + 1
  {
    ComptimeString(text + [Nul])
  }

  /** A literal without an embedded NUL reads back whole through c_str(), and
      str() is that text followed by the NUL. */
  lemma LiteralRoundTrip(text: string)
    requires Nul !in text
    ensures FromLiteral(text).CStr() == text
    ensures FromLiteral(text).Str() == text + [Nul]
  {
    var data := text + [Nul];
    var p := CPrefix(data);
    assert data[..|text|] == text && data[|text|] == Nul;
    assert forall i :: 0 <= i < |text| ==> data[i] == text[i];
    assert Nul in data && data[..|data|] == data;
  }

  /** ComptimePair: a name and the value it stands for. */
  datatype ComptimePair<T> = ComptimePair(name: ComptimeString, value: T)
  {
    /** str() forwards to the stored string. */
    function Str(): string {
      name.Str()
    }

    function CStr(): string {
      name.CStr()
    }

    /** value(): the value given at construction. */
    function Value(): T {
      value
    }
  }

  /** The consteval pair constructor: the literal becomes the name and the
      value is kept as given. */
  function Pair<T>(text: string, value: T): (p: ComptimePair<T>)
    ensures p.Value() == value && |p.Str()| == |text| + 1
  {
    ComptimePair(FromLiteral(text), value)
  }

  /** OptionPack<MyOptions...>: the three arrays are built from the pairs in
      declaration order, each with Size entries. */
  datatype OptionPack<T> = OptionPack(pairs: seq<ComptimePair<T>>)
  {
    /** Size: the number of pairs. */
    function Size(): nat {
      |pairs|
    }

    /** Options, which options() exposes as a span of Size entries. */
    function Options(): (o: seq<string>)
      ensures |o| == Size()
      ensures forall i :: 0 <= i < |o| ==> o[i] == pairs[i].Str()
    {
      seq(|pairs|, i requires 0 <= i < |pairs| => pairs[i].Str())
    }

    function OptionsCStr(): (o: seq<string>)
      ensures |o| == Size()
      ensures forall i :: 0 <= i < |o| ==> o[i] == pairs[i].CStr()
    {
      seq(|pairs|, i requires 0 <= i < |pairs| => pairs[i].CStr())
    }

    function Values(): (v: seq<T>)
      ensures |v| == Size()
      ensures forall i :: 0 <= i < |v| ==> v[i] == pairs[i].Value()
    {
      seq(|pairs|, i requires 0 <= i < |pairs| => pairs[i].Value())
    }

    /** value_at: the value of the index-th pair, or out_of_range when the
        index is not below Size. */
    function ValueAt(index: nat): (r: Result<T>)
      ensures r.Err? <==> index >= Size()
      ensures r.Err? ==> r.error == OutOfRange("index out of range")
      ensures r.Ok? ==> r.value == pairs[index].value
    {
      if index >= Size() then Err(OutOfRange("index out of range")) else Ok(Values()[index])
    }
  }

  /** The name a menu shows for an option is the one it was declared with,
      and picking it gives that option's value. */
  lemma OptionNameAndValue<T>(pack: OptionPack<T>, index: nat, text: string, value: T)
    requires index < pack.Size() && pack.pairs[index] == Pair(text, value) && Nul !in text
    ensures pack.OptionsCStr()[index] == text
    ensures pack.ValueAt(index) == Ok(value)
  {
    LiteralRoundTrip(text);
  }

  /** The genre menu of the user interface: one option per tag, named after
      it, in the order of the tags. */
  function GenrePack(): (pack: OptionPack<Records.Genre>)
    ensures pack.Size() == 9
  {
    OptionPack([
      Pair("Astronomy", Records.Astronomy),
      Pair("Architecture", Records.Architecture),
      Pair("Sport", Records.Sport),
      Pair("Landscape", Records.Landscape),
      Pair("Portrait", Records.Portrait),
      Pair("Nature", Records.Nature),
      Pair("Aerial", Records.Aerial),
      Pair("Food", Records.Food),
      Pair("Other", Records.Other)
    ])
  }

  /** Every genre can be picked from the menu: the option at a tag's
      position yields that tag. */
  lemma GenrePackCoversGenres(g: Records.Genre)
    ensures GenrePack().ValueAt(g.Ordinal()) == Ok(g)
    ensures GenrePack().ValueAt(9).Err?
  {
  }
}
