/**
 * The flag logic of `MetaDocEntry` in `meta_doc_helper.rs`: the type of a collection's
 * primary key is packed into the low byte of the entry's `flags`.  Type tags are bytes
 * (`bv8`) and `flags` a `u32` (`bv32`), so that masking and `|` are bitwise.
 */
module MetaDoc {
  import opened Ints
  import opened Wrappers

  /** The mask of the key-type byte inside `flags`. */
  const KEY_TY_FLAG: bv32 := 0xFF

  /** The key under which the meta document stores `flags`. */
  const FLAGS: string := "flags"

  /** The field values of a meta document that are modelled. */
  datatype Value = Int(n: int) | String(s: string)

  /** A document, as its fields by key. */
  type Document = map<string, Value>

  datatype DbErr = UnexpectedIdType(expected: bv8, actual: bv8)

  /** `key_ty`: the low byte of `flags`. */
  function KeyTy(flags: bv32): (t: bv8)
    ensures t as bv32 == flags & KEY_TY_FLAG
  {
    (flags & KEY_TY_FLAG) as bv8
  }

  /**
   * The decision of `check_pkey_ty` on the expected key type and the document's actual
   * one, with the new value of its `skipped` out-parameter.  Type 0 means "not fixed yet"
   * and accepts any document.
   */
  function Check(expected: bv8, actual: bv8, skipped: bool): (r: (Outcome<DbErr>, bool))
    ensures expected == 0 ==> r.0 == Pass && r.1
    ensures expected != 0 ==> r.1 == skipped && (r.0 == Pass <==> expected == actual)
    ensures r.0.Fail? ==> r.0.error == UnexpectedIdType(expected, actual)
  {
    if expected == 0 then (Pass, true)
    else if expected != actual then (Fail(UnexpectedIdType(expected, actual)), skipped)
    else (Pass, skipped)
  }

  /**
   * The flags after `merge_pkey_ty_to_meta` with key type `ty`: they only gain bits,
   * and the bits above the low byte are those of `flags`.
   */
  function Merge(flags: bv32, ty: bv8): (r: bv32)
    ensures r & flags == flags
    ensures r & !KEY_TY_FLAG == flags & !KEY_TY_FLAG
  {
    flags | (ty as bv32 & KEY_TY_FLAG)
  }

  /** Merging ORs the type into the key-type byte. */
  lemma MergeKeyTy(flags: bv32, ty: bv8)
    ensures KeyTy(Merge(flags, ty)) == KeyTy(flags) | ty
  { }

  /** Merging the same type twice gives the flags of merging it once. */
  lemma MergeTwice(flags: bv32, ty: bv8)
    ensures Merge(Merge(flags, ty), ty) == Merge(flags, ty)
  { }

  /** Merging a type into fresh flags makes it the key type. */
  lemma MergeFresh(ty: bv8)
    ensures KeyTy(Merge(0, ty)) == ty
  { }

  /**
   * Once a non-zero type has been merged into fresh flags, the check accepts a document
   * exactly when its key has that type, reports both types when it does not, and leaves
   * `skipped` as it was.
   */
  lemma FreshMergeCheck(ty: bv8, actual: bv8, skipped: bool)
    requires ty != 0
    ensures var r := Check(KeyTy(Merge(0, ty)), actual, skipped);
      && (r.0 == Pass <==> actual == ty)
      && (r.0.Fail? ==> r.0.error == UnexpectedIdType(ty, actual))
      && r.1 == skipped
  {
    MergeFresh(ty);
  }

  /** An entry of the meta collection: a collection's name, its root page and its flags. */
  class MetaDocEntry {
    const id: string
    const rootPid: u32
    var flags: bv32

    /** `MetaDocEntry::new`: no key type fixed yet. */
    constructor (id: string, rootPid: u32)
      ensures this.id == id && this.rootPid == rootPid && flags == 0
      ensures KeyTy(flags) == 0
    {
      this.id := id;
      this.rootPid := rootPid;
      flags := 0;
    }

    /**
     * `check_pkey_ty` for a document whose primary key has type `pkeyTy`; `skipped` is
     * the value of the out-parameter before the call and `skippedOut` after it.
     */
    method CheckPkeyTy(pkeyTy: bv8, skipped: bool) returns (r: Outcome<DbErr>, skippedOut: bool)
      ensures r == Check(KeyTy(flags), pkeyTy, skipped).0
      ensures skippedOut == Check(KeyTy(flags), pkeyTy, skipped).1
    {
      var expected := KeyTy(flags);
      if expected == 0 {
        return Pass, true;
      }
      if expected != pkeyTy {
        return Fail(UnexpectedIdType(expected, pkeyTy)), skipped;
      }
      return Pass, skipped;
    }

    /**
     * `merge_pkey_ty_to_meta`: the key type `pkeyTy` of the value document is merged
     * into `flags`, and the meta document gets the new flags under `"flags"`.
     */
    method MergePkeyTyToMeta(metaDoc: Document, pkeyTy: bv8) returns (doc: Document)
      modifies this`flags
      ensures flags == Merge(old(flags), pkeyTy)
      ensures doc == metaDoc[FLAGS := Int(flags as int)]
    {
      flags := flags | (pkeyTy as bv32 & KEY_TY_FLAG);
      doc := metaDoc[FLAGS := Int(flags as int)];
    }
  }

  /**
   * A fresh entry that has merged the key type `ty` of a first document accepts a later
   * document exactly when its key has type `ty`, and does not report a skip.
   */
  method MergeThenCheck(id: string, rootPid: u32, metaDoc: Document, ty: bv8, actual: bv8)
    returns (r: Outcome<DbErr>, skipped: bool)
    requires ty != 0
    ensures r == Pass <==> actual == ty
    ensures r.Fail? ==> r.error == UnexpectedIdType(ty, actual)
    ensures !skipped
  {
    var entry := new MetaDocEntry(id, rootPid);
    var _ := entry.MergePkeyTyToMeta(metaDoc, ty);
    FreshMergeCheck(ty, actual, false);
    r, skipped := entry.CheckPkeyTy(actual, false);
  }
}
