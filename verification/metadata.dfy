/**
 The `--metadata` string of `parse_metadata_from_str` (fds/fds_cmd.py):
 `key:value` entries separated by `;`, each sorted into user-defined metadata
 or protocol headers by its key's prefix.

 The object-metadata class belongs to the storage SDK; it is modelled by the
 two lists of `(key, value)` pairs in the order they are added to it, and its
 user-defined-metadata prefix constant is a parameter.
 */
module Metadata {
  import opened Common

  /** Python `s.split(sep)`: the pieces between occurrences of `sep`. */
  function Split(s: string, sep: char): (r: seq<string>)
    ensures |r| >= 1
    ensures forall i :: 0 <= i < |r| ==> sep !in r[i]
    decreases |s|
  {
    if |s| == 0 then [""]
    else
      var rest := Split(s[1..], sep);
      if s[0] == sep then [""] + rest
      else [[s[0]] + rest[0]] + rest[1..]
  }

  /** `sep.join(pieces)`, the inverse of `Split`. */
  function Join(pieces: seq<string>, sep: char): string
    requires |pieces| >= 1
  {
    if |pieces| == 1 then pieces[0] else pieces[0] + [sep] + Join(pieces[1..], sep)
  }

  /** Splitting loses nothing: the pieces joined back give the string. */
  lemma {:induction false} JoinSplit(s: string, sep: char)
    ensures Join(Split(s, sep), sep) == s
    decreases |s|
  {
    if |s| > 0 {
      var rest := Split(s[1..], sep);
      JoinSplit(s[1..], sep);
      if s[0] == sep {
        assert ([""] + rest)[1..] == rest;
      } else if |rest| > 1 {
        var r := [[s[0]] + rest[0]] + rest[1..];
        assert r[1..] == rest[1..];
        assert Join(rest, sep) == rest[0] + [sep] + Join(rest[1..], sep);
      }
    }
  }

  /** A separator-free head splits off as part of the first piece. */
  lemma {:induction false} SplitFreeHead(a: string, t: string, sep: char)
    requires sep !in a
    ensures Split(a + t, sep) == [a + Split(t, sep)[0]] + Split(t, sep)[1..]
    decreases |a|
  {
    if |a| == 0 {
      assert a + t == t;
      var st := Split(t, sep);
      assert a == "";
      assert a + st[0] == st[0];
      assert [st[0]] + st[1..] == st;
    } else {
      assert (a + t)[0] == a[0];
      assert (a + t)[1..] == a[1..] + t;
      SplitFreeHead(a[1..], t, sep);
      assert [a[0]] + (a[1..] + Split(t, sep)[0]) == a + Split(t, sep)[0];
    }
  }

  /** Pieces free of the separator are exactly what splitting their join gives back. */
  lemma {:induction false} SplitJoin(pieces: seq<string>, sep: char)
    requires |pieces| >= 1
    requires forall i :: 0 <= i < |pieces| ==> sep !in pieces[i]
    ensures Split(Join(pieces, sep), sep) == pieces
    decreases |pieces|
  {
    if |pieces| == 1 {
      SplitFreeHead(pieces[0], "", sep);
      assert pieces[0] + "" == pieces[0];
    } else {
      var tail := Join(pieces[1..], sep);
      SplitJoin(pieces[1..], sep);
      assert pieces[0] + [sep] + tail == pieces[0] + ([sep] + tail);
      SplitFreeHead(pieces[0], [sep] + tail, sep);
      assert ([sep] + tail)[1..] == tail;
      var st := Split([sep] + tail, sep);
      assert st == [""] + pieces[1..];
      assert st[0] == "" && st[1..] == pieces[1..];
      assert pieces[0] + st[0] == pieces[0];
      assert Join(pieces, sep) == pieces[0] + ([sep] + tail);
      assert Split(Join(pieces, sep), sep) == [pieces[0]] + pieces[1..];
      assert pieces == [pieces[0]] + pieces[1..];
    }
  }

  /**
   Python `s.split(sep, 1)` unpacked into two names: the text before the
   first `sep` and everything after it, or `None` when the unpacking raises
   because `sep` does not occur.
   */
  function SplitAtFirst(s: string, sep: char): (r: Option<(string, string)>)
    ensures r.None? <==> sep !in s
    ensures r.Some? ==> sep !in r.value.0 && r.value.0 + [sep] + r.value.1 == s
    decreases |s|
  {
    if |s| == 0 then None
    else if s[0] == sep then Some(("", s[1..]))
    else match SplitAtFirst(s[1..], sep)
      case None => None
      case Some((k, v)) => Some(([s[0]] + k, v))
  }

  /** The split is at the first separator: no other cut has a separator-free key. */
  lemma {:induction false} SplitAtFirstUnique(s: string, sep: char, k: string, v: string)
    requires sep !in k && k + [sep] + v == s
    ensures SplitAtFirst(s, sep) == Some((k, v))
    decreases |s|
  {
    if |k| == 0 {
      assert s[0] == sep && s[1..] == v;
    } else {
      assert s[0] == k[0];
      assert s[1..] == k[1..] + [sep] + v;
      SplitAtFirstUnique(s[1..], sep, k[1..], v);
      assert [k[0]] + k[1..] == k;
    }
  }

  /** The entry that made `key, value = entry.split(':', 1)` raise. */
  datatype MetadataError = MissingColon(entry: string)

  /** The metadata object: pairs added as user metadata and as headers, in order. */
  datatype ObjectMetadata = ObjectMetadata(userMetadata: seq<(string, string)>, headers: seq<(string, string)>)

  /** An entry is kept when both its key and its value are non-empty. */
  predicate Kept(kv: (string, string))
  {
    kv.0 != "" && kv.1 != ""
  }

  /** One entry's effect on the metadata object that already holds the later entries. */
  function AddEntry(kv: (string, string), userPrefix: string, md: ObjectMetadata): ObjectMetadata
  {
    if !Kept(kv) then md
    else if StartsWith(kv.0, userPrefix) then md.(userMetadata := [kv] + md.userMetadata)
    else md.(headers := [kv] + md.headers)
  }

  /** The loop over the entries; the first entry without a colon aborts it. */
  function ParseEntries(entries: seq<string>, userPrefix: string): (r: Result<ObjectMetadata, MetadataError>)
    ensures r.Ok? <==> forall i :: 0 <= i < |entries| ==> ':' in entries[i]
    ensures r.Err? ==> exists i :: (0 <= i < |entries| && r.error == MissingColon(entries[i])
      && ':' !in entries[i] && forall j :: 0 <= j < i ==> ':' in entries[j])
    decreases |entries|
  {
    if |entries| == 0 then Ok(ObjectMetadata([], []))
    else match SplitAtFirst(entries[0], ':')
      case None => Err(MissingColon(entries[0]))
      case Some(kv) =>
        var rest := ParseEntries(entries[1..], userPrefix);
        assert forall i :: 1 <= i < |entries| ==> entries[i] == entries[1..][i - 1];
        match rest
        case Err(e) => Err(e)
        case Ok(md) => Ok(AddEntry(kv, userPrefix, md))
  }

  /**
   `parse_metadata_from_str`: no metadata object for a missing or empty
   string; otherwise the entries between `;` parsed in order.
   */
  function ParseMetadata(metadata: Option<string>, userPrefix: string): (r: Result<Option<ObjectMetadata>, MetadataError>)
    ensures !Truthy(metadata) ==> r == Ok(None)
    ensures Truthy(metadata) && r.Ok? ==> r.value.Some?
    ensures Truthy(metadata) ==>
      (r.Ok? <==> forall e :: e in Split(metadata.value, ';') ==> ':' in e)
    ensures Truthy(metadata) && r.Ok? ==>
      var entries := Split(metadata.value, ';');
      && (forall i :: 0 <= i < |entries| ==> ':' in entries[i])
      && r.value == Some(ObjectMetadata(
        Select(Pairs(entries), userPrefix, true), Select(Pairs(entries), userPrefix, false)))
    ensures Truthy(metadata) && r.Err? ==>
      var entries := Split(metadata.value, ';');
      exists i :: (0 <= i < |entries| && r.error == MissingColon(entries[i])
        && ':' !in entries[i] && forall j :: 0 <= j < i ==> ':' in entries[j])
  {
    if !Truthy(metadata) then Ok(None)
    else
      var entries := Split(metadata.value, ';');
      assert forall e :: e in entries <==> exists i :: 0 <= i < |entries| && entries[i] == e;
      match ParseEntries(entries, userPrefix)
      case Err(e) => Err(e)
      case Ok(md) =>
        ParseEntriesIsSelection(entries, userPrefix);
        Ok(Some(md))
  }

  // ---- Reference definition: the entries split once, then filtered ----

  /** Each entry cut at its first colon. */
  function Pairs(entries: seq<string>): (r: seq<(string, string)>)
    requires forall i :: 0 <= i < |entries| ==> ':' in entries[i]
    ensures |r| == |entries|
    ensures forall i :: 0 <= i < |r| ==> Some(r[i]) == SplitAtFirst(entries[i], ':')
  {
    seq(|entries|, i requires 0 <= i < |entries| => SplitAtFirst(entries[i], ':').value)
  }

  /** The kept pairs whose key starts with the prefix (`user`) or does not (`!user`), in order. */
  function Select(pairs: seq<(string, string)>, userPrefix: string, user: bool): seq<(string, string)>
  {
    if |pairs| == 0 then []
    else
      (if Kept(pairs[0]) && StartsWith(pairs[0].0, userPrefix) == user then [pairs[0]] else [])
      + Select(pairs[1..], userPrefix, user)
  }

  /** The kept pairs, in order. */
  function KeptPairs(pairs: seq<(string, string)>): seq<(string, string)>
  {
    if |pairs| == 0 then [] else (if Kept(pairs[0]) then [pairs[0]] else []) + KeptPairs(pairs[1..])
  }

  /** The parser agrees with the reference: user metadata and headers are the two selections. */
  lemma {:induction false} ParseEntriesIsSelection(entries: seq<string>, userPrefix: string)
    requires forall i :: 0 <= i < |entries| ==> ':' in entries[i]
    ensures ParseEntries(entries, userPrefix)
      == Ok(ObjectMetadata(Select(Pairs(entries), userPrefix, true), Select(Pairs(entries), userPrefix, false)))
    decreases |entries|
  {
    if |entries| > 0 {
      ParseEntriesIsSelection(entries[1..], userPrefix);
      var pairs := Pairs(entries);
      assert pairs[1..] == Pairs(entries[1..]);
      assert SplitAtFirst(entries[0], ':') == Some(pairs[0]);
      var md := ParseEntries(entries[1..], userPrefix).value;
      assert md == ObjectMetadata(Select(pairs[1..], userPrefix, true), Select(pairs[1..], userPrefix, false));
      assert ParseEntries(entries, userPrefix) == Ok(AddEntry(pairs[0], userPrefix, md));
      if !Kept(pairs[0]) {
        assert AddEntry(pairs[0], userPrefix, md) == md;
        assert Select(pairs, userPrefix, true) == Select(pairs[1..], userPrefix, true);
        assert Select(pairs, userPrefix, false) == Select(pairs[1..], userPrefix, false);
      } else if StartsWith(pairs[0].0, userPrefix) {
        assert Select(pairs, userPrefix, true) == [pairs[0]] + Select(pairs[1..], userPrefix, true);
        assert Select(pairs, userPrefix, false) == Select(pairs[1..], userPrefix, false);
      } else {
        assert Select(pairs, userPrefix, false) == [pairs[0]] + Select(pairs[1..], userPrefix, false);
        assert Select(pairs, userPrefix, true) == Select(pairs[1..], userPrefix, true);
      }
    }
  }

  /** A pair is selected exactly when it occurs, is kept, and its key's prefix matches `user`. */
  lemma {:induction false} SelectMembership(pairs: seq<(string, string)>, userPrefix: string, user: bool, kv: (string, string))
    ensures kv in Select(pairs, userPrefix, user) <==> kv in pairs && Kept(kv) && StartsWith(kv.0, userPrefix) == user
    decreases |pairs|
  {
    if |pairs| > 0 {
      SelectMembership(pairs[1..], userPrefix, user, kv);
      assert pairs == [pairs[0]] + pairs[1..];
    }
  }

  /** The two selections split the kept pairs between them: none is lost or duplicated. */
  lemma {:induction false} SelectPartition(pairs: seq<(string, string)>, userPrefix: string)
    ensures multiset(Select(pairs, userPrefix, true)) + multiset(Select(pairs, userPrefix, false))
      == multiset(KeptPairs(pairs))
    decreases |pairs|
  {
    if |pairs| > 0 {
      SelectPartition(pairs[1..], userPrefix);
    }
  }

  /**
   Every entry with a non-empty key and value lands in exactly one of the two
   lists, chosen by its key's prefix; every other entry lands in neither.
   */
  lemma ParsedEntryPlacement(entries: seq<string>, userPrefix: string, i: int)
    requires forall j :: 0 <= j < |entries| ==> ':' in entries[j]
    requires 0 <= i < |entries|
    ensures var kv := SplitAtFirst(entries[i], ':').value;
      var md := ParseEntries(entries, userPrefix).value;
      && (kv in md.userMetadata <== Kept(kv) && StartsWith(kv.0, userPrefix))
      && (kv in md.headers <== Kept(kv) && !StartsWith(kv.0, userPrefix))
      && (!Kept(kv) ==> kv !in md.userMetadata && kv !in md.headers)
  {
    var kv := SplitAtFirst(entries[i], ':').value;
    ParseEntriesIsSelection(entries, userPrefix);
    assert Pairs(entries)[i] == kv;
    SelectMembership(Pairs(entries), userPrefix, true, kv);
    SelectMembership(Pairs(entries), userPrefix, false, kv);
  }

  /** Appending a separator adds one empty piece at the end. */
  lemma {:induction false} SplitTrailingSeparator(s: string, sep: char)
    ensures Split(s + [sep], sep) == Split(s, sep) + [""]
    decreases |s|
  {
    if |s| == 0 {
      assert s + [sep] == [sep];
      assert [sep][1..] == "";
    } else {
      assert (s + [sep])[1..] == s[1..] + [sep];
      SplitTrailingSeparator(s[1..], sep);
      var r := Split(s[1..], sep);
      assert (r + [""])[1..] == r[1..] + [""];
    }
  }

  /**
   A single entry is cut at its first colon only, so its value may itself
   contain colons; it goes to the user metadata exactly when its key starts
   with the prefix.
   */
  lemma SingleEntry(key: string, value: string, userPrefix: string)
    requires ':' !in key && ';' !in key && ';' !in value
    requires key != "" && value != ""
    ensures ParseMetadata(Some(key + [':'] + value), userPrefix)
      == Ok(Some(
        if StartsWith(key, userPrefix) then ObjectMetadata([(key, value)], [])
        else ObjectMetadata([], [(key, value)])))
  {
    var entry := key + [':'] + value;
    assert ';' !in entry;
    SplitJoin([entry], ';');
    SplitAtFirstUnique(entry, ':', key, value);
    assert Join([entry], ';') == entry;
    assert Split(entry, ';') == [entry];
    assert [entry][1..] == [];
    assert ParseEntries([], userPrefix) == Ok(ObjectMetadata([], []));
    var md := AddEntry((key, value), userPrefix, ObjectMetadata([], []));
    assert ParseEntries([entry], userPrefix) == Ok(md);
    assert ParseMetadata(Some(entry), userPrefix) == Ok(Some(md));
    assert Kept((key, value));
    assert [(key, value)] + [] == [(key, value)];
  }

  /** A trailing `;` leaves an empty last entry, which has no colon and raises. */
  lemma TrailingSemicolonRaises(s: string, userPrefix: string)
    ensures ParseMetadata(Some(s + ";"), userPrefix).Err?
    ensures (forall e :: e in Split(s, ';') ==> ':' in e) ==>
      ParseMetadata(Some(s + ";"), userPrefix) == Err(MissingColon(""))
  {
    SplitTrailingSeparator(s, ';');
    var entries := Split(s + ";", ';');
    assert entries[|entries| - 1] == "";
    var r := ParseEntries(entries, userPrefix);
    assert r.Err?;
    if forall e :: e in Split(s, ';') ==> ':' in e {
      var i :| 0 <= i < |entries| && r.error == MissingColon(entries[i])
        && ':' !in entries[i] && forall j :: 0 <= j < i ==> ':' in entries[j];
      if i < |entries| - 1 {
        assert false;
      }
    }
  }
}
