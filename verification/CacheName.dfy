/** Names of cached pages (cachedir.c) and the cache key of a PROPFIND (webdav.c). */
module CacheName {
  import CString
  import opened CNumber
  import opened Options

  /** The fields of struct stat that a name depends on. */
  datatype Stat = Stat(ino: nat, dev: nat, mtime: int)

  /** The whole name, before snprintf cuts it to the buffer. */
  function FullName(cachedir: string, uprefix: nat, st: Stat): string {
    cachedir + "/" + (Decimal(uprefix) + "-" + (Decimal(st.ino) + "-" + (Decimal(st.dev) + "-" + SignedDecimal(st.mtime))))
  }

  /** cached_filename: what the PATH_LEN buffer holds as a C string. */
  function CachedFilename(cachedir: string, uprefix: nat, st: Stat): string {
    var name := FullName(cachedir, uprefix, st);
    if |name| < PATH_LEN then name else name[..PATH_LEN - 1]
  }

  /** Names that fit the buffer are equal only for the same prefix, inode, device and time. */
  lemma NamesDoNotCollide(cachedir: string, p: nat, st: Stat, p': nat, st': Stat)
    requires |FullName(cachedir, p, st)| < PATH_LEN && |FullName(cachedir, p', st')| < PATH_LEN
    ensures CachedFilename(cachedir, p, st) == CachedFilename(cachedir, p', st') <==> p == p' && st == st'
  {
    if CachedFilename(cachedir, p, st) == CachedFilename(cachedir, p', st') {
      var tail := Decimal(st.dev) + "-" + SignedDecimal(st.mtime);
      var tail' := Decimal(st'.dev) + "-" + SignedDecimal(st'.mtime);
      var mid := Decimal(st.ino) + "-" + tail;
      var mid' := Decimal(st'.ino) + "-" + tail';
      var n := |cachedir + "/"|;
      assert FullName(cachedir, p, st)[n..] == Decimal(p) + "-" + mid;
      assert FullName(cachedir, p', st')[n..] == Decimal(p') + "-" + mid';
      CString.SplitUnique(Decimal(p), Decimal(p'), '-', mid, mid');
      CString.SplitUnique(Decimal(st.ino), Decimal(st'.ino), '-', tail, tail');
      CString.SplitUnique(Decimal(st.dev), Decimal(st'.dev), '-', SignedDecimal(st.mtime), SignedDecimal(st'.mtime));
      DecimalInjective(p, p');
      DecimalInjective(st.ino, st'.ino);
      DecimalInjective(st.dev, st'.dev);
      SignedDecimalInjective(st.mtime, st'.mtime);
    }
  }

  /** What a PROPFIND asks for: the bit-fields of t_dav_details other than `type`. */
  datatype Props = Props(
    getetag: bool, getcontentlength: bool, resourcetype: bool, getlastmodified: bool, getcontenttype: bool, deep: bool)

  function Bit(b: bool, weight: nat): nat {
    if b then weight else 0
  }

  /** `int_version` of u_dav_details: bit-fields from the low bit up, `type` set to 1 above them. */
  function PropfindKey(p: Props): nat {
    Bit(p.getetag, 1) + Bit(p.getcontentlength, 2) + Bit(p.resourcetype, 4) + Bit(p.getlastmodified, 8)
    + Bit(p.getcontenttype, 16) + Bit(p.deep, 32) + 64
  }

  /** The prefix that directory listings use. */
  const LISTING_PREFIX := 0

  /** A PROPFIND answer is cached under its own property set and never under a listing's name. */
  lemma PropfindNamesDoNotCollide(cachedir: string, st: Stat, p: Props, st': Stat, p': Props)
    requires |FullName(cachedir, PropfindKey(p), st)| < PATH_LEN
    requires |FullName(cachedir, PropfindKey(p'), st')| < PATH_LEN
    requires |FullName(cachedir, LISTING_PREFIX, st')| < PATH_LEN
    ensures CachedFilename(cachedir, PropfindKey(p), st) == CachedFilename(cachedir, PropfindKey(p'), st')
      <==> p == p' && st == st'
    ensures CachedFilename(cachedir, PropfindKey(p), st) != CachedFilename(cachedir, LISTING_PREFIX, st')
  {
    NamesDoNotCollide(cachedir, PropfindKey(p), st, PropfindKey(p'), st');
    NamesDoNotCollide(cachedir, PropfindKey(p), st, LISTING_PREFIX, st');
    KeysInjective(p, p');
  }

  lemma KeysInjective(p: Props, p': Props)
    ensures PropfindKey(p) == PropfindKey(p') ==> p == p'
  {
  }
}
