/**
 * The identifier store behind both validators: the license table and the
 * exception table, and the metadata lookups over them.  Both PHP classes
 * carry identical copies of these members.
 */
module Store {
  import opened Common

  /** A license entry: full name, OSI approval and deprecation. */
  datatype LicenseInfo = LicenseInfo(name: string, osiApproved: bool, deprecated: bool)

  /** An exception entry: its full name. */
  datatype ExceptionInfo = ExceptionInfo(name: string)

  /**
   * A PHP associative array with string keys: the keys in insertion order
   * (which `foreach` follows) and the value stored at each key.
   */
  datatype Table<V> = Table(keys: seq<string>, entries: map<string, V>)
  {
    ghost predicate Valid() {
      && (forall i, j :: 0 <= i < j < |keys| ==> keys[i] != keys[j])
      && (forall id :: id in entries <==> id in keys)
    }
  }

  datatype Tables = Tables(licenses: Table<LicenseInfo>, exceptions: Table<ExceptionInfo>)

  /** The two decoded tables handed to the constructor. */
  type IdentifierStore = t: Tables | t.licenses.Valid() && t.exceptions.Valid()
    witness Tables(Table([], map[]), Table([], map[]))

  /** All license identifiers, and all exception identifiers. */
  function LicenseIds(store: IdentifierStore): set<string> { store.licenses.entries.Keys }
  function ExceptionIds(store: IdentifierStore): set<string> { store.exceptions.entries.Keys }

  /** What `getLicenseByIdentifier` returns: the stored tuple with the text URL appended. */
  datatype LicenseMetadata = LicenseMetadata(name: string, osiApproved: bool, deprecated: bool, textUrl: string)

  /** What `getExceptionByIdentifier` returns: the stored name with the text URL appended. */
  datatype ExceptionMetadata = ExceptionMetadata(name: string, textUrl: string)

  const UrlPrefix := "https://spdx.org/licenses/"
  const LicenseUrlSuffix := ".html#licenseText"
  const ExceptionUrlSuffix := ".html#licenseExceptionText"

  function LicenseTextUrl(id: string): string { UrlPrefix + id + LicenseUrlSuffix }
  function ExceptionTextUrl(id: string): string { UrlPrefix + id + ExceptionUrlSuffix }

  /** The identifier a text URL was built from: the part between prefix and suffix. */
  function IdentifierOfUrl(url: string, suffix: string): string
    requires |url| >= |UrlPrefix| + |suffix|
  {
    url[|UrlPrefix|..|url| - |suffix|]
  }

  /** A text URL determines its identifier, so distinct identifiers get distinct URLs. */
  lemma LicenseTextUrlRoundTrip(id: string)
    ensures |LicenseTextUrl(id)| >= |UrlPrefix| + |LicenseUrlSuffix|
    ensures IdentifierOfUrl(LicenseTextUrl(id), LicenseUrlSuffix) == id
  {
    var url := LicenseTextUrl(id);
    assert url[|UrlPrefix|..|url| - |LicenseUrlSuffix|] == id;
  }

  lemma ExceptionTextUrlRoundTrip(id: string)
    ensures |ExceptionTextUrl(id)| >= |UrlPrefix| + |ExceptionUrlSuffix|
    ensures IdentifierOfUrl(ExceptionTextUrl(id), ExceptionUrlSuffix) == id
  {
    var url := ExceptionTextUrl(id);
    assert url[|UrlPrefix|..|url| - |ExceptionUrlSuffix|] == id;
  }

  /** `getLicenseByIdentifier`: null for an unknown identifier. */
  function GetLicenseByIdentifier(store: IdentifierStore, id: string): (r: Option<LicenseMetadata>)
    ensures r.None? <==> id !in LicenseIds(store)
    ensures r.Some? ==>
      var info := store.licenses.entries[id];
      && r.value.name == info.name
      && r.value.osiApproved == info.osiApproved
      && r.value.deprecated == info.deprecated
      && r.value.textUrl == LicenseTextUrl(id)
      && r.value.textUrl[..|UrlPrefix|] == UrlPrefix
  {
    if id !in store.licenses.entries then None
    else
      var info := store.licenses.entries[id];
      Some(LicenseMetadata(info.name, info.osiApproved, info.deprecated, LicenseTextUrl(id)))
  }

  /** `getExceptionByIdentifier`: null for an unknown identifier. */
  function GetExceptionByIdentifier(store: IdentifierStore, id: string): (r: Option<ExceptionMetadata>)
    ensures r.None? <==> id !in ExceptionIds(store)
    ensures r.Some? ==>
      && r.value.name == store.exceptions.entries[id].name
      && r.value.textUrl == ExceptionTextUrl(id)
      && r.value.textUrl[..|UrlPrefix|] == UrlPrefix
  {
    if id !in store.exceptions.entries then None
    else Some(ExceptionMetadata(store.exceptions.entries[id].name, ExceptionTextUrl(id)))
  }

  /**
   * `isOsiApprovedByIdentifier`: the stored flag. For an unknown identifier
   * PHP warns about the missing key and returns null, which is falsy; here
   * that is `false`.
   */
  function IsOsiApprovedByIdentifier(store: IdentifierStore, id: string): (r: bool)
    ensures r <==> GetLicenseByIdentifier(store, id).Some? && GetLicenseByIdentifier(store, id).value.osiApproved
    ensures id !in LicenseIds(store) ==> !r
  {
    if id in store.licenses.entries then store.licenses.entries[id].osiApproved else false
  }

  /** `isValidLicenseIdentifier`: `in_array` over the keys of the license table. */
  function IsValidLicenseIdentifier(store: IdentifierStore, id: string): (r: bool)
    ensures r <==> exists i :: 0 <= i < |store.licenses.keys| && store.licenses.keys[i] == id
    ensures r <==> GetLicenseByIdentifier(store, id).Some?
  {
    id in store.licenses.entries
  }

  /** `isValidExceptionIdentifier`: `in_array` over the keys of the exception table. */
  function IsValidExceptionIdentifier(store: IdentifierStore, id: string): (r: bool)
    ensures r <==> exists i :: 0 <= i < |store.exceptions.keys| && store.exceptions.keys[i] == id
    ensures r <==> GetExceptionByIdentifier(store, id).Some?
  {
    id in store.exceptions.entries
  }

  /** `i` is the first position, in table order, whose entry has full name `name`. */
  ghost predicate FirstLicenseNamed(t: Table<LicenseInfo>, name: string, i: int)
    requires t.Valid()
  {
    && 0 <= i < |t.keys|
    && t.entries[t.keys[i]].name == name
    && forall j :: 0 <= j < i ==> t.entries[t.keys[j]].name != name
  }

  ghost predicate FirstExceptionNamed(t: Table<ExceptionInfo>, name: string, i: int)
    requires t.Valid()
  {
    && 0 <= i < |t.keys|
    && t.entries[t.keys[i]].name == name
    && forall j :: 0 <= j < i ==> t.entries[t.keys[j]].name != name
  }

  ghost predicate NoLicenseNamed(t: Table<LicenseInfo>, name: string)
    requires t.Valid()
  {
    forall id :: id in t.entries ==> t.entries[id].name != name
  }

  ghost predicate NoExceptionNamed(t: Table<ExceptionInfo>, name: string)
    requires t.Valid()
  {
    forall id :: id in t.entries ==> t.entries[id].name != name
  }

  /**
   * `getIdentifierByName`: the first license (in table order) with that full
   * name, else the first exception with it, else null.
   */
  method GetIdentifierByName(store: IdentifierStore, name: string) returns (r: Option<string>)
    ensures r.Some? ==>
      || (exists i :: FirstLicenseNamed(store.licenses, name, i) && store.licenses.keys[i] == r.value)
      || (&& NoLicenseNamed(store.licenses, name)
          && exists i :: FirstExceptionNamed(store.exceptions, name, i) && store.exceptions.keys[i] == r.value)
    ensures r.None? <==> NoLicenseNamed(store.licenses, name) && NoExceptionNamed(store.exceptions, name)
    ensures r.Some? ==>
      || (GetLicenseByIdentifier(store, r.value).Some? && GetLicenseByIdentifier(store, r.value).value.name == name)
      || (GetExceptionByIdentifier(store, r.value).Some? && GetExceptionByIdentifier(store, r.value).value.name == name)
  {
    var licenses := store.licenses;
    var i := 0;
    while i < |licenses.keys|
      invariant 0 <= i <= |licenses.keys|
      invariant forall j :: 0 <= j < i ==> licenses.entries[licenses.keys[j]].name != name
    {
      var id := licenses.keys[i];
      if licenses.entries[id].name == name {
        assert FirstLicenseNamed(licenses, name, i);
        return Some(id);
      }
      i := i + 1;
    }
    assert NoLicenseNamed(licenses, name) by {
      forall id | id in licenses.entries ensures licenses.entries[id].name != name {
        var j :| 0 <= j < |licenses.keys| && licenses.keys[j] == id;
      }
    }
    var exceptions := store.exceptions;
    i := 0;
    while i < |exceptions.keys|
      invariant 0 <= i <= |exceptions.keys|
      invariant forall j :: 0 <= j < i ==> exceptions.entries[exceptions.keys[j]].name != name
    {
      var id := exceptions.keys[i];
      if exceptions.entries[id].name == name {
        assert FirstExceptionNamed(exceptions, name, i);
        return Some(id);
      }
      i := i + 1;
    }
    assert NoExceptionNamed(exceptions, name) by {
      forall id | id in exceptions.entries ensures exceptions.entries[id].name != name {
        var j :| 0 <= j < |exceptions.keys| && exceptions.keys[j] == id;
      }
    }
    return None;
  }
}
