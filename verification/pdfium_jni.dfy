/**
 * Small pieces of the JNI layer: the FPDF error messages, the library
 * reference count, and the range page loader.
 */
module PdfiumJni {
  import opened JavaLang

  /**
   * PDFium's `FPDF_ERR_*` codes as published in its public header
   * `fpdfview.h` (that header is not part of this model).
   */
  const FPDF_ERR_SUCCESS: int := 0
  const FPDF_ERR_UNKNOWN: int := 1
  const FPDF_ERR_FILE: int := 2
  const FPDF_ERR_FORMAT: int := 3
  const FPDF_ERR_PASSWORD: int := 4
  const FPDF_ERR_SECURITY: int := 5
  const FPDF_ERR_PAGE: int := 6

  /** `getErrorDescription`: a fixed message per known code, "Unknown error." otherwise. */
  function ErrorDescription(error: int): (msg: string)
    ensures error == FPDF_ERR_SUCCESS ==> msg == "No error."
    ensures error == FPDF_ERR_FILE ==> msg == "File not found or could not be opened."
    ensures error == FPDF_ERR_FORMAT ==> msg == "File not in PDF format or corrupted."
    ensures error == FPDF_ERR_PASSWORD ==> msg == "Incorrect password."
    ensures error == FPDF_ERR_SECURITY ==> msg == "Unsupported security scheme."
    ensures error == FPDF_ERR_PAGE ==> msg == "Page not found or content error."
    ensures !IsKnownError(error) ==> msg == "Unknown error."
  {
    if error == FPDF_ERR_SUCCESS then "No error."
    else if error == FPDF_ERR_FILE then "File not found or could not be opened."
    else if error == FPDF_ERR_FORMAT then "File not in PDF format or corrupted."
    else if error == FPDF_ERR_PASSWORD then "Incorrect password."
    else if error == FPDF_ERR_SECURITY then "Unsupported security scheme."
    else if error == FPDF_ERR_PAGE then "Page not found or content error."
    else "Unknown error."
  }

  /** The codes with a message of their own (`FPDF_ERR_UNKNOWN` is not one of them). */
  predicate IsKnownError(error: int)
  {
    error in {FPDF_ERR_SUCCESS, FPDF_ERR_FILE, FPDF_ERR_FORMAT, FPDF_ERR_PASSWORD, FPDF_ERR_SECURITY, FPDF_ERR_PAGE}
  }

  /** Distinct known codes get distinct messages, and none of them reads as the unknown one. */
  lemma ErrorDescriptionsDistinct(a: int, b: int)
    requires IsKnownError(a) && IsKnownError(b)
    requires a != b
    ensures ErrorDescription(a) != ErrorDescription(b)
    ensures ErrorDescription(a) != "Unknown error."
  {
  }

  /** The global library state: the reference count and whether FPDF is initialised. */
  datatype Library = Library(refCount: int, initialized: bool)

  datatype LibraryEvent = InitLibrary | DestroyLibrary

  /** `initLibraryIfNeed`: initialise FPDF on the 0 -> 1 transition, then count the user. */
  function InitLibraryIfNeed(lib: Library): (r: (Library, seq<LibraryEvent>))
    ensures r.0.refCount == lib.refCount + 1
    ensures r.1 == (if lib.refCount == 0 then [InitLibrary] else [])
    ensures r.0.initialized == (lib.initialized || lib.refCount == 0)
  {
    if lib.refCount == 0 then (Library(1, true), [InitLibrary])
    else (lib.(refCount := lib.refCount + 1), [])
  }

  /** `destroyLibraryIfNeed`: uncount the user, destroy FPDF on the 1 -> 0 transition. */
  function DestroyLibraryIfNeed(lib: Library): (r: (Library, seq<LibraryEvent>))
    ensures r.0.refCount == lib.refCount - 1
    ensures r.1 == (if lib.refCount == 1 then [DestroyLibrary] else [])
    ensures r.0.initialized == (lib.initialized && lib.refCount != 1)
  {
    var n := lib.refCount - 1;
    if n == 0 then (Library(0, false), [DestroyLibrary])
    else (lib.(refCount := n), [])
  }

  /** A run of document opens (`true`) and closes (`false`), with the events each caused. */
  function Run(lib: Library, ops: seq<bool>): (r: (Library, seq<LibraryEvent>))
    decreases |ops|
  {
    if |ops| == 0 then (lib, [])
    else
      var step := if ops[0] then InitLibraryIfNeed(lib) else DestroyLibraryIfNeed(lib);
      var rest := Run(step.0, ops[1..]);
      (rest.0, step.1 + rest.1)
  }

  function Repeat(b: bool, n: nat): (s: seq<bool>)
    ensures |s| == n && forall k :: 0 <= k < n ==> s[k] == b
  {
    if n == 0 then [] else [b] + Repeat(b, n - 1)
  }

  lemma {:induction false} RunAppend(lib: Library, a: seq<bool>, b: seq<bool>)
    ensures Run(lib, a + b) == (Run(Run(lib, a).0, b).0, Run(lib, a).1 + Run(Run(lib, a).0, b).1)
    decreases |a|
  {
    if |a| > 0 {
      assert (a + b)[0] == a[0] && (a + b)[1..] == a[1..] + b;
      var step := if a[0] then InitLibraryIfNeed(lib) else DestroyLibraryIfNeed(lib);
      var mid := Run(step.0, a[1..]);
      RunAppend(step.0, a[1..], b);
      assert Run(lib, a + b) == (Run(step.0, a[1..] + b).0, step.1 + Run(step.0, a[1..] + b).1);
      assert Run(lib, a) == (mid.0, step.1 + mid.1);
      assert step.1 + (mid.1 + Run(mid.0, b).1) == (step.1 + mid.1) + Run(mid.0, b).1;
    } else {
      assert a + b == b;
      assert Run(lib, a) == (lib, []);
      assert [] + Run(lib, b).1 == Run(lib, b).1;
    }
  }

  /** Opens on a library that is already in use cause no event. */
  lemma {:induction false} OpensWhileInUse(lib: Library, n: nat)
    requires lib.refCount > 0
    ensures Run(lib, Repeat(true, n)) == (lib.(refCount := lib.refCount + n), [])
    decreases n
  {
    if n > 0 {
      var s := Repeat(true, n);
      assert s[0] && s[1..] == Repeat(true, n - 1);
      var next := lib.(refCount := lib.refCount + 1);
      assert InitLibraryIfNeed(lib) == (next, []);
      OpensWhileInUse(next, n - 1);
      assert Run(lib, s) == (Run(next, s[1..]).0, [] + Run(next, s[1..]).1);
      assert next.(refCount := next.refCount + (n - 1)) == lib.(refCount := lib.refCount + n);
      var tail := Run(next, s[1..]);
      assert tail.1 == [] && [] + tail.1 == tail.1;
      assert Run(lib, s) == (tail.0, tail.1);
    } else {
      assert Repeat(true, n) == [];
      assert lib.(refCount := lib.refCount + n) == lib;
    }
  }

  /** Closes that leave at least one user cause no event; the last one destroys. */
  lemma {:induction false} ClosesDownTo(lib: Library, n: nat)
    requires lib.refCount >= n
    ensures Run(lib, Repeat(false, n)).0.refCount == lib.refCount - n
    ensures Run(lib, Repeat(false, n)).1 == (if n > 0 && lib.refCount == n then [DestroyLibrary] else [])
    ensures lib.refCount == n && n > 0 ==> !Run(lib, Repeat(false, n)).0.initialized
    decreases n
  {
    if n > 0 {
      var s := Repeat(false, n);
      assert !s[0] && s[1..] == Repeat(false, n - 1);
      ClosesDownTo(DestroyLibraryIfNeed(lib).0, n - 1);
    }
  }

  /**
   * From an unused library, `n` opens followed by `n` closes initialise FPDF
   * exactly once and destroy it exactly once, leaving the count at 0.
   */
  lemma BalancedUseInitialisesOnce(n: nat)
    requires n > 0
    ensures var r := Run(Library(0, false), Repeat(true, n) + Repeat(false, n));
      r.1 == [InitLibrary, DestroyLibrary] && r.0.refCount == 0 && !r.0.initialized
  {
    var start := Library(0, false);
    RunAppend(start, Repeat(true, n), Repeat(false, n));
    var opens := Repeat(true, n);
    assert opens[0] && opens[1..] == Repeat(true, n - 1);
    OpensWhileInUse(Library(1, true), n - 1);
    var tail := Run(Library(1, true), opens[1..]);
    assert tail.0 == Library(n, true) && tail.1 == [];
    assert [InitLibrary] + tail.1 == [InitLibrary];
    assert Run(start, opens) == (tail.0, [InitLibrary] + tail.1);
    ClosesDownTo(tail.0, n);
    var closes := Run(tail.0, Repeat(false, n));
    assert [InitLibrary] + closes.1 == [InitLibrary, DestroyLibrary];
  }

  /**
   * `loadPageInternal`: the page `FPDF_LoadPage` returned (`page`, `None` when
   * the document or the loaded page is null), or the IllegalStateException
   * the JNI layer leaves pending for Java.
   */
  function NativeLoadPage(page: Option<Int64>): (r: Outcome<Int64>)
    ensures r.Ok? <==> page.Some?
    ensures r.Ok? ==> r.value == page.value
    ensures r.Throws? ==> r.exception == IllegalState("cannot load page")
  {
    match page
    case Some(ptr) => Ok(ptr)
    case None => Throws(IllegalState("cannot load page"))
  }

  /**
   * `nativeLoadPages(doc, fromIndex, toIndex)`: `null` for an inverted range;
   * otherwise every index is loaded, and one failed page leaves the
   * IllegalStateException pending, so Java receives it instead of the array.
   * Otherwise one loaded page pointer per index, in index order.
   */
  function NativeLoadPages(fromIndex: int, toIndex: int, loadPage: int -> Option<Int64>): (r: Outcome<Option<seq<Int64>>>)
    ensures toIndex < fromIndex ==> r == Ok(None)
    ensures r.Throws? <==> fromIndex <= toIndex && exists k :: fromIndex <= k <= toIndex && loadPage(k).None?
    ensures r.Throws? ==> r.exception == IllegalState("cannot load page")
    ensures r.Ok? && fromIndex <= toIndex ==> r.value.Some? && |r.value.value| == toIndex - fromIndex + 1
    ensures r.Ok? && r.value.Some? ==> forall i :: 0 <= i < |r.value.value| ==> loadPage(fromIndex + i) == Some(r.value.value[i])
  {
    if toIndex < fromIndex then Ok(None)
    else if exists k :: fromIndex <= k <= toIndex && loadPage(k).None? then Throws(IllegalState("cannot load page"))
    else
      var ptrs := seq<Int64>(toIndex - fromIndex + 1, i requires 0 <= i <= toIndex - fromIndex && loadPage(fromIndex + i).Some? =>
        NativeLoadPage(loadPage(fromIndex + i)).value);
      assert forall i :: 0 <= i < |ptrs| ==> ptrs[i] == NativeLoadPage(loadPage(fromIndex + i)).value;
      Ok(Some(ptrs))
  }
}
