/**
 * The comma-list settings of clopetracker/settings.py:
 * `[h.strip() for h in raw.split(",") if h.strip()]`, applied to the
 * ALLOWED_HOSTS and CSRF_TRUSTED_ORIGINS variables (default `""`).
 */
module Settings {
  import opened Wrappers
  import opened Text

  /** The comprehension's filter and map over the split pieces, in order. */
  function StripNonBlank(pieces: seq<string>): (entries: seq<string>)
    ensures |entries| <= |pieces|
    ensures forall i :: 0 <= i < |entries| ==> entries[i] != "" && Stripped(entries[i])
  {
    if pieces == [] then []
    else
      var h := Strip(pieces[0]);
      (if h != "" then [h] else []) + StripNonBlank(pieces[1..])
  }

  /** A comma-separated setting parsed into its entries. */
  function ParseCommaList(raw: string): (entries: seq<string>)
    ensures forall i :: 0 <= i < |entries| ==> entries[i] != "" && Stripped(entries[i])
  {
    StripNonBlank(Split(raw, ','))
  }

  /** `config(name, default="")`: an unset variable reads as the empty string. */
  function ConfigOrEmpty(value: Option<string>): string {
    value.GetOr("")
  }

  /** `ALLOWED_HOSTS`, from the variable's value (None when unset). */
  function AllowedHosts(value: Option<string>): (hosts: seq<string>)
    ensures value.None? ==> hosts == []
    ensures forall i :: 0 <= i < |hosts| ==> hosts[i] != "" && Stripped(hosts[i]) && ',' !in hosts[i]
  {
    EmptyListParsesToNothing();
    ParsedEntriesHaveNoComma(ConfigOrEmpty(value));
    ParseCommaList(ConfigOrEmpty(value))
  }

  /** `CSRF_TRUSTED_ORIGINS`: the same rules as ALLOWED_HOSTS. */
  function CsrfTrustedOrigins(value: Option<string>): (origins: seq<string>)
    ensures origins == AllowedHosts(value)
  {
    ParseCommaList(ConfigOrEmpty(value))
  }

  /** The default empty setting yields no entry. */
  lemma EmptyListParsesToNothing()
    ensures ParseCommaList("") == []
  {
    assert Split("", ',') == [""];
    assert Strip("") == "";
  }

  /** A piece without a given character yields entries without it. */
  lemma {:induction false} StripNonBlankAvoids(pieces: seq<string>, c: char)
    requires forall i :: 0 <= i < |pieces| ==> c !in pieces[i]
    ensures forall i :: 0 <= i < |StripNonBlank(pieces)| ==> c !in StripNonBlank(pieces)[i]
  {
    if pieces != [] {
      StripAvoids(pieces[0], c);
      StripNonBlankAvoids(pieces[1..], c);
    }
  }

  /** No parsed entry contains a comma. */
  lemma ParsedEntriesHaveNoComma(raw: string)
    ensures forall i :: 0 <= i < |ParseCommaList(raw)| ==> ',' !in ParseCommaList(raw)[i]
  {
    StripNonBlankAvoids(Split(raw, ','), ',');
  }

  /** An entry is in the list exactly when some comma-separated piece strips to it. */
  lemma {:induction false} StripNonBlankMembers(pieces: seq<string>, e: string)
    ensures e in StripNonBlank(pieces) <==> e != "" && exists i :: 0 <= i < |pieces| && Strip(pieces[i]) == e
  {
    if pieces != [] {
      StripNonBlankMembers(pieces[1..], e);
      if e != "" && exists i :: 0 <= i < |pieces| && Strip(pieces[i]) == e {
        var i :| 0 <= i < |pieces| && Strip(pieces[i]) == e;
        if i > 0 { assert Strip(pieces[1..][i - 1]) == e; }
      }
      if exists i :: 0 <= i < |pieces[1..]| && Strip(pieces[1..][i]) == e {
        var i :| 0 <= i < |pieces[1..]| && Strip(pieces[1..][i]) == e;
        assert Strip(pieces[i + 1]) == e;
      }
    }
  }

  /** One piece yields its stripped text, unless that is blank. */
  lemma StripNonBlankSingle(piece: string)
    ensures StripNonBlank([piece]) == if Strip(piece) == "" then [] else [Strip(piece)]
  {
    assert [piece][1..] == [];
  }

  /**
   * The comprehension works piece by piece, in order: the entries of two runs
   * of pieces are the entries of the first followed by those of the second.
   */
  lemma {:induction false} StripNonBlankAppend(a: seq<string>, b: seq<string>)
    ensures StripNonBlank(a + b) == StripNonBlank(a) + StripNonBlank(b)
  {
    if a == [] {
      assert a + b == b;
    } else {
      var h := Strip(a[0]);
      var head := if h != "" then [h] else [];
      assert (a + b)[0] == a[0];
      assert (a + b)[1..] == a[1..] + b;
      assert StripNonBlank(a + b) == head + StripNonBlank(a[1..] + b);
      StripNonBlankAppend(a[1..], b);
      assert head + (StripNonBlank(a[1..]) + StripNonBlank(b)) == (head + StripNonBlank(a[1..])) + StripNonBlank(b);
    }
  }

  /** The entries of a list of non-blank stripped pieces are those pieces. */
  lemma {:induction false} StripNonBlankKeeps(pieces: seq<string>)
    requires forall i :: 0 <= i < |pieces| ==> pieces[i] != "" && Stripped(pieces[i])
    ensures StripNonBlank(pieces) == pieces
  {
    if pieces != [] {
      StripKeepsStripped(pieces[0]);
      StripNonBlankKeeps(pieces[1..]);
    }
  }

  /**
   * Round trip: writing a list of clean entries comma-separated and parsing
   * it back gives the same list, in the same order.
   */
  lemma ParseJoined(entries: seq<string>)
    requires forall i :: 0 <= i < |entries| ==> entries[i] != "" && Stripped(entries[i]) && ',' !in entries[i]
    ensures ParseCommaList(Join(entries, ',')) == entries
  {
    if entries == [] {
      EmptyListParsesToNothing();
    } else {
      SplitJoin(entries, ',');
      StripNonBlankKeeps(entries);
    }
  }
}
