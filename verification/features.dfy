/** Feature composition of `load_and_process_data`: every missing feature cell
    is filled with the empty string, then the five features of a row are
    joined, in a fixed order, with single spaces. */
module Features {
  import opened Catalog

  /** The separator placed between consecutive features. */
  const Separator: string := " "

  /** `fillna('')` on every feature column; the title is kept as it is. */
  function Normalise(raw: RawMovie): (m: Movie)
    ensures m.title == raw.title
    ensures raw.genres.Some? ==> m.genres == raw.genres.value
    ensures raw.genres.None? ==> m.genres == ""
    ensures raw.keywords.Some? ==> m.keywords == raw.keywords.value
    ensures raw.keywords.None? ==> m.keywords == ""
    ensures raw.tagline.Some? ==> m.tagline == raw.tagline.value
    ensures raw.tagline.None? ==> m.tagline == ""
    ensures raw.cast.Some? ==> m.cast == raw.cast.value
    ensures raw.cast.None? ==> m.cast == ""
    ensures raw.director.Some? ==> m.director == raw.director.value
    ensures raw.director.None? ==> m.director == ""
  {
    Movie(raw.title, raw.genres.GetOr(""), raw.keywords.GetOr(""),
          raw.tagline.GetOr(""), raw.cast.GetOr(""), raw.director.GetOr(""))
  }

  /** The feature columns of a row, in the order they are combined. */
  function FeatureFields(m: Movie): (r: seq<string>)
    ensures |r| == 5
  {
    [m.genres, m.keywords, m.tagline, m.cast, m.director]
  }

  /** Reference definition: `sep.join(fields)` in Python. */
  function Join(fields: seq<string>, sep: string): (text: string)
  {
    if |fields| == 0 then ""
    else if |fields| == 1 then fields[0]
    else fields[0] + sep + Join(fields[1..], sep)
  }

  function SumLengths(fields: seq<string>): (total: nat)
  {
    if |fields| == 0 then 0 else |fields[0]| + SumLengths(fields[1..])
  }

  /** The combined text of one filled row: the column-wise string sum
      `genres + ' ' + keywords + ' ' + tagline + ' ' + cast + ' ' + director`. */
  function Compose(m: Movie): (text: string)
  {
    m.genres + Separator + m.keywords + Separator + m.tagline + Separator
      + m.cast + Separator + m.director
  }

  /** The combined feature text of the whole catalog, one text per row in row
      order, together with the filled rows that are returned alongside it. */
  function ComposeFeatures(rows: seq<RawMovie>): (r: (seq<Movie>, seq<string>))
    ensures |r.0| == |rows| && |r.1| == |rows|
    ensures forall i :: 0 <= i < |rows| ==> r.0[i] == Normalise(rows[i])
    ensures forall i :: 0 <= i < |rows| ==>
      r.1[i] == Join(FeatureFields(Normalise(rows[i])), Separator)
    ensures forall i :: 0 <= i < |rows| ==>
      |r.1[i]| == SumLengths(FeatureFields(Normalise(rows[i]))) + 4
  {
    var movies := seq(|rows|, i requires 0 <= i < |rows| => Normalise(rows[i]));
    var texts := seq(|rows|, i requires 0 <= i < |rows| => Compose(movies[i]));
    forall i | 0 <= i < |rows|
      ensures texts[i] == Join(FeatureFields(movies[i]), Separator)
      ensures |texts[i]| == SumLengths(FeatureFields(movies[i])) + 4
    {
      ComposeIsJoin(movies[i]);
      JoinLength(FeatureFields(movies[i]), Separator);
    }
    (movies, texts)
  }

  /** Joining n >= 1 fields adds exactly n - 1 separators to their lengths. */
  lemma {:induction false} JoinLength(fields: seq<string>, sep: string)
    requires |fields| >= 1
    ensures |Join(fields, sep)| == SumLengths(fields) + (|fields| - 1) * |sep|
  {
    if |fields| > 1 {
      JoinLength(fields[1..], sep);
    }
  }

  /** The combined text is the space-join of the five features in the order
      genres, keywords, tagline, cast, director. */
  lemma ComposeIsJoin(m: Movie)
    ensures Compose(m) == Join(FeatureFields(m), Separator)
  {
    var f := FeatureFields(m);
    assert f[1..][1..][1..][1..] == [m.director];
    assert f[1..][1..][1..] == [m.cast, m.director];
    assert f[1..][1..] == [m.tagline, m.cast, m.director];
    assert f[1..] == [m.keywords, m.tagline, m.cast, m.director];
    assert Join(f[1..][1..][1..], Separator) == m.cast + Separator + m.director;
    assert Join(f[1..][1..], Separator)
      == m.tagline + Separator + (m.cast + Separator + m.director);
    assert Join(f[1..], Separator)
      == m.keywords + Separator + (m.tagline + Separator + (m.cast + Separator + m.director));
  }

  /** Each feature sits at a fixed offset of the combined text, separated from
      the next one by a single space, so the five features can be read back
      from the text given their lengths. */
  lemma ComposeFieldsAt(m: Movie)
    ensures var t := Compose(m);
      var o1 := |m.genres| + 1;
      var o2 := o1 + |m.keywords| + 1;
      var o3 := o2 + |m.tagline| + 1;
      var o4 := o3 + |m.cast| + 1;
      && |t| == o4 + |m.director|
      && t[..o1 - 1] == m.genres && t[o1 - 1] == ' '
      && t[o1..o2 - 1] == m.keywords && t[o2 - 1] == ' '
      && t[o2..o3 - 1] == m.tagline && t[o3 - 1] == ' '
      && t[o3..o4 - 1] == m.cast && t[o4 - 1] == ' '
      && t[o4..] == m.director
  {
  }

  /** A row whose five features are all missing still yields four spaces,
      never the empty text. */
  lemma AllMissingIsFourSpaces(raw: RawMovie)
    requires raw.genres.None? && raw.keywords.None? && raw.tagline.None?
    requires raw.cast.None? && raw.director.None?
    ensures Compose(Normalise(raw)) == "    "
  {
  }
}
