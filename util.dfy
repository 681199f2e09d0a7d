/**
 * The allocation wrappers of libresine. A buffer comes either from the generic C
 * allocator or from FFTW's aligned allocator, and must be released through the
 * same one. The Heap records, as ghost state, every live buffer with the family
 * that produced it; a release demands that tag, which is what free() and
 * fftw_free() demand of their callers.
 */
module Util {
  import opened Common

  /** Which allocator produced (or releases) a buffer. */
  datatype Family = Generic | Fftw

  /** rsn_malloc's routing: FFTW's allocator only for FFTW and non-sample element sizes. */
  function AllocFamily(b: Build, transform: int, base: nat): Family {
    if b.hasFftw && base != PEL_SIZE && transform == TRANSFORM_FFTW then Fftw else Generic
  }

  /** rsn_free's routing: FFTW's release for the FFTW transform code. */
  function ReleaseFamily(b: Build, transform: int): Family {
    if b.hasFftw && transform == TRANSFORM_FFTW then Fftw else Generic
  }

  /**
   * A buffer from rsn_malloc(config, base, n) released with rsn_free(config.transform, ...)
   * goes back to the allocator that produced it, except for sample-sized buffers under
   * FFTW, which were calloc'ed but would be handed to fftw_free.
   */
  lemma RoutingAgrees(b: Build, transform: int, base: nat)
    ensures AllocFamily(b, transform, base) == ReleaseFamily(b, transform)
        <==> !(b.hasFftw && transform == TRANSFORM_FFTW && base == PEL_SIZE)
  {
  }

  /** Coefficient buffers (base = sizeof(rsn_frequency)) always round-trip. */
  lemma FrequencyRoutingAgrees(b: Build, transform: int)
    ensures AllocFamily(b, transform, FREQUENCY_SIZE) == ReleaseFamily(b, transform)
  {
  }

  /** Sample buffers always come from, and go back to, the generic allocator with RSN_TRANSFORM_NONE. */
  lemma PelRoutingIsGeneric(b: Build, transform: int)
    ensures AllocFamily(b, transform, PEL_SIZE) == Generic == ReleaseFamily(b, TRANSFORM_NONE)
  {
  }

  /** The non-null rows among the first n entries of an array of row pointers. */
  ghost function RowSet<T>(rows: array<array?<T>>, n: nat): set<object>
    reads rows
  {
    Elements(rows[..if n <= rows.Length then n else rows.Length])
  }

  /** The non-null entries of a sequence of row pointers. */
  ghost function Elements<T>(s: seq<array?<T>>): set<object> {
    set i | 0 <= i < |s| && s[i] != null :: s[i] as object
  }

  lemma ElementsAppend<T>(s: seq<array?<T>>, r: array?<T>)
    ensures Elements(s + [r]) == Elements(s) + (if r == null then {} else {r as object})
  {
    var t := s + [r];
    forall o | o in Elements(t) ensures o in Elements(s) + (if r == null then {} else {r as object}) {
      var i :| 0 <= i < |t| && t[i] != null && o == t[i] as object;
      if i < |s| { assert s[i] == t[i]; }
    }
    forall o | o in Elements(s) ensures o in Elements(t) {
      var i :| 0 <= i < |s| && s[i] != null && o == s[i] as object;
      assert t[i] == s[i];
    }
    if r != null { assert t[|s|] == r; }
  }

  /** The first n row pointers are non-null and pairwise distinct. */
  ghost predicate DistinctRows<T>(rows: array<array?<T>>, n: nat)
    reads rows
  {
    n <= rows.Length &&
    (forall i :: 0 <= i < n ==> rows[i] != null) &&
    (forall i, j :: 0 <= i < j < n ==> rows[i] != rows[j])
  }

  /** Every object of s, tagged with family f. */
  ghost function Tag(s: set<object>, f: Family): map<object, Family> {
    map o | o in s :: f
  }

  lemma TagAdd(s: set<object>, o: object, f: Family)
    ensures Tag(s + {o}, f) == Tag(s, f)[o := f]
  {
  }

  /** The non-null rows among the first n carry tag f once Tag(RowSet(rows, n), f) is merged over any map. */
  lemma RowsTagged<T>(m: map<object, Family>, rows: array<array?<T>>, n: nat, f: Family)
    requires n <= rows.Length
    ensures forall j :: 0 <= j < n && rows[j] != null ==>
              rows[j] in m + Tag(RowSet(rows, n), f) && (m + Tag(RowSet(rows, n), f))[rows[j] as object] == f
  {
    forall j | 0 <= j < n && rows[j] != null ensures rows[j] as object in RowSet(rows, n) {
      assert rows[..n][j] == rows[j];
    }
  }

  lemma MergeUpdate<K, V>(a: map<K, V>, b: map<K, V>, k: K, v: V)
    ensures (a + b)[k := v] == a + b[k := v]
  {
  }

  class Heap {
    const build: Build
    /** Every buffer allocated and not yet released, with the family that produced it. */
    ghost var live: map<object, Family>

    constructor (build: Build)
      ensures this.build == build && live == map[]
    {
      this.build := build;
      live := map[];
    }

    /** rsn_malloc: multiplier zeroed elements of size base, routed by AllocFamily. */
    method Malloc<T>(config: Config, base: nat, zero: T, multiplier: nat) returns (a: array<T>)
      modifies this
      ensures fresh(a) && a.Length == multiplier
      ensures forall i :: 0 <= i < multiplier ==> a[i] == zero
      ensures live == old(live)[a := AllocFamily(build, config.transform, base)]
    {
      a := new T[multiplier](_ => zero);
      live := live[a := AllocFamily(build, config.transform, base)];
    }

    /**
     * rsn_malloc_array: y fresh row pointers (a plain malloc), each a zeroed
     * rsn_malloc buffer of x elements.
     */
    method MallocArray<T>(config: Config, base: nat, zero: T, y: nat, x: nat) returns (rows: array<array?<T>>)
      modifies this
      ensures fresh(rows) && rows.Length == y && DistinctRows(rows, y)
      ensures forall j :: 0 <= j < y ==> fresh(rows[j]) && rows[j].Length == x
      ensures forall j, i :: 0 <= j < y && 0 <= i < x ==> rows[j][i] == zero
      ensures live == old(live)[rows := Generic]
                    + Tag(RowSet(rows, y), AllocFamily(build, config.transform, base))
    {
      rows := new array?<T>[y];
      live := live[rows := Generic];
      var j := 0;
      while j < y
        invariant 0 <= j <= y
        invariant DistinctRows(rows, j)
        invariant forall k :: 0 <= k < j ==> fresh(rows[k]) && rows[k].Length == x
        invariant forall k, i :: 0 <= k < j && 0 <= i < x ==> rows[k][i] == zero
        invariant live == old(live)[rows := Generic]
                      + Tag(RowSet(rows, j), AllocFamily(build, config.transform, base))
      {
        ghost var rs := RowSet(rows, j);
        ghost var prefix := rows[..j];
        var row := Malloc(config, base, zero, x);
        rows[j] := row;
        assert rows[..j + 1] == prefix + [row];
        ElementsAppend(prefix, row);
        TagAdd(rs, row, AllocFamily(build, config.transform, base));
        MergeUpdate(old(live)[rows := Generic], Tag(rs, AllocFamily(build, config.transform, base)),
                    row, AllocFamily(build, config.transform, base));
        j := j + 1;
      }
    }

    /** rsn_free: a no-op on NULL; otherwise releases through the family of `type` and nulls the slot. */
    method Free<T>(typ: int, buf: array?<T>) returns (slot: array?<T>)
      requires buf != null ==> buf in live && live[buf] == ReleaseFamily(build, typ)
      modifies this
      ensures slot == null
      ensures live == if buf == null then old(live) else old(live) - {buf}
    {
      if buf != null {
        live := live - {buf};
      }
      slot := null;
    }

    /**
     * rsn_free_array: a no-op on NULL; otherwise releases each of the first `length` rows
     * through rsn_free (nulling its pointer), then the row-pointer array itself.
     */
    method FreeArray<T>(typ: int, length: nat, rows: array?<array?<T>>) returns (slot: array?<array?<T>>)
      requires rows != null ==> length <= rows.Length && rows in live && live[rows] == Generic
      requires rows != null ==> forall i, j :: 0 <= i < j < length && rows[i] != null ==> rows[i] != rows[j]
      requires rows != null ==> forall i :: 0 <= i < length && rows[i] != null ==>
                 rows[i] in live && live[rows[i] as object] == ReleaseFamily(build, typ)
      requires rows != null ==> rows !in RowSet(rows, length)
      modifies this, rows
      ensures slot == null
      ensures rows == null ==> live == old(live)
      ensures rows != null ==> live == old(live) - {rows} - old(RowSet(rows, length))
      ensures rows != null ==> forall i :: 0 <= i < length ==> rows[i] == null
    {
      if rows == null {
        return null;
      }
      ghost var orows := rows[..length];
      var i := 0;
      while i < length
        invariant 0 <= i <= length
        invariant forall k :: 0 <= k < i ==> rows[k] == null
        invariant forall k :: i <= k < length ==> rows[k] == orows[k]
        invariant live == old(live) - Elements(orows[..i])
      {
        var row := rows[i];
        assert orows[..i + 1] == orows[..i] + [row];
        ElementsAppend(orows[..i], row);
        rows[i] := Free(typ, row);
        i := i + 1;
      }
      assert orows[..length] == orows;
      slot := Free(TRANSFORM_NONE, rows);
    }

    /**
     * rsn_realloc. Through FFTW's allocator the original is released and a fresh zeroed
     * buffer returned, so its contents are lost; otherwise C realloc keeps the common
     * prefix (the grown tail is uninitialised and not described). The result is taken to be
     * a new block: a realloc that succeeds in place, returning orig itself, is not modelled.
     */
    method Realloc<T>(config: Config, orig: array?<T>, base: nat, zero: T, multiplier: nat) returns (a: array<T>)
      requires orig != null ==> orig in live && live[orig] == AllocFamily(build, config.transform, base)
      modifies this
      ensures fresh(a) && a.Length == multiplier
      ensures AllocFamily(build, config.transform, base) == Fftw ==>
                forall i :: 0 <= i < multiplier ==> a[i] == zero
      ensures AllocFamily(build, config.transform, base) == Generic && orig != null ==>
                forall i :: 0 <= i < multiplier && i < orig.Length ==> a[i] == old(orig[i])
      ensures live == (if orig == null then old(live) else old(live) - {orig})
                      [a := AllocFamily(build, config.transform, base)]
    {
      var family := AllocFamily(build, config.transform, base);
      if family == Fftw {
        var _ := Free(config.transform, orig);
        a := Malloc(config, base, zero, multiplier);
      } else {
        a := new T[multiplier](i reads orig => if orig != null && 0 <= i < orig.Length then orig[i] else zero);
        if orig != null {
          live := live - {orig};
        }
        live := live[a := Generic];
      }
    }

    /**
     * rsn_realloc_array: resizes the row-pointer array to y entries, keeping the first y
     * pointers, then reallocates rows 0..y-1 through rsn_realloc. Only shrinking or keeping
     * the row count is described: growing would pass uninitialised pointers to realloc.
     */
    method ReallocArray<T>(config: Config, orig: array<array?<T>>, base: nat, zero: T, y: nat, x: nat)
      returns (rows: array<array?<T>>)
      requires y <= orig.Length && orig in live && live[orig] == Generic
      requires forall i, j :: 0 <= i < j < y && orig[i] != null ==> orig[i] != orig[j]
      requires forall i :: 0 <= i < y && orig[i] != null ==>
                 orig[i] in live && live[orig[i] as object] == AllocFamily(build, config.transform, base)
      requires orig !in RowSet(orig, y)
      modifies this
      ensures fresh(rows) && rows.Length == y && DistinctRows(rows, y)
      ensures forall j :: 0 <= j < y ==> fresh(rows[j]) && rows[j].Length == x
      ensures AllocFamily(build, config.transform, base) == Fftw ==>
                forall j, i :: 0 <= j < y && 0 <= i < x ==> rows[j][i] == zero
      ensures AllocFamily(build, config.transform, base) == Generic ==>
                forall j, i :: 0 <= j < y && 0 <= i < x && old(orig[j]) != null && i < old(orig[j]).Length ==>
                  rows[j][i] == old(orig[j][i])
      ensures live == (old(live) - {orig} - old(RowSet(orig, y)))[rows := Generic]
                      + Tag(RowSet(rows, y), AllocFamily(build, config.transform, base))
    {
      rows := new array?<T>[y](i reads orig => if 0 <= i < orig.Length then orig[i] else null);
      ghost var kept := old(live) - {orig};
      live := (live - {orig})[rows := Generic];
      ghost var orows := rows[..];
      assert orows == old(orig[..y]);
      assert old(RowSet(orig, y)) == Elements(orows);
      ReallocRows(config, rows, base, zero, x, orows, kept);
      assert RowSet(rows, y) == Elements(rows[..]);
    }

    /** rsn_realloc_array's loop over the y kept row pointers orows, now held by rows. */
    method ReallocRows<T>(config: Config, rows: array<array?<T>>, base: nat, zero: T, x: nat,
                          ghost orows: seq<array?<T>>, ghost kept: map<object, Family>)
      requires rows[..] == orows && live == kept[rows := Generic]
      requires forall k, k' :: 0 <= k < k' < |orows| && orows[k] != null ==> orows[k] != orows[k']
      requires forall k :: 0 <= k < |orows| && orows[k] != null ==>
                 orows[k] in kept && kept[orows[k] as object] == AllocFamily(build, config.transform, base)
      requires rows !in Elements(orows)
      modifies this, rows
      ensures DistinctRows(rows, rows.Length)
      ensures forall k :: 0 <= k < rows.Length ==> fresh(rows[k]) && rows[k].Length == x
      ensures AllocFamily(build, config.transform, base) == Fftw ==>
                forall k, i :: 0 <= k < rows.Length && 0 <= i < x ==> rows[k][i] == zero
      ensures AllocFamily(build, config.transform, base) == Generic ==>
                forall k, i :: 0 <= k < rows.Length && 0 <= i < x && orows[k] != null && i < orows[k].Length ==>
                  rows[k][i] == old(orows[k][i])
      ensures live == (kept - Elements(orows))[rows := Generic]
                      + Tag(Elements(rows[..]), AllocFamily(build, config.transform, base))
    {
      ghost var family := AllocFamily(build, config.transform, base);
      ghost var made: seq<array?<T>> := [];
      var j := 0;
      while j < rows.Length
        invariant 0 <= j <= rows.Length && |made| == j
        invariant forall k :: 0 <= k < j ==> rows[k] == made[k]
        invariant forall k :: j <= k < rows.Length ==> rows[k] == orows[k]
        invariant forall k :: 0 <= k < j ==> made[k] != null && fresh(made[k]) && made[k].Length == x
        invariant forall k, k' :: 0 <= k < k' < j ==> made[k] != made[k']
        invariant family == Fftw ==> forall k, i :: 0 <= k < j && 0 <= i < x ==> made[k][i] == zero
        invariant family == Generic ==>
                    forall k, i :: 0 <= k < j && 0 <= i < x && orows[k] != null && i < orows[k].Length ==>
                      made[k][i] == old(orows[k][i])
        invariant live == (kept - Elements(orows[..j]))[rows := Generic] + Tag(Elements(made), family)
      {
        assert orows[j] != null ==> orows[j] as object !in Elements(made);
        made := ReallocNext(config, rows, j, base, zero, x, orows, kept, made);
        j := j + 1;
      }
      assert rows[..] == made;
      assert orows[..j] == orows;
    }

    /** One iteration of rsn_realloc_array's loop: rows[j] = rsn_realloc(config, rows[j], base, x). */
    method ReallocNext<T>(config: Config, rows: array<array?<T>>, j: nat, base: nat, zero: T, x: nat,
                          ghost orows: seq<array?<T>>, ghost kept: map<object, Family>,
                          ghost made: seq<array?<T>>) returns (ghost made': seq<array?<T>>)
      requires j < rows.Length == |orows| && |made| == j && rows[j] == orows[j]
      requires orows[j] != null ==> orows[j] in kept && kept[orows[j] as object] == AllocFamily(build, config.transform, base)
      requires orows[j] != null ==> orows[j] as object !in Elements(made) && orows[j] !in Elements(orows[..j])
      requires rows !in Elements(orows)
      requires live == (kept - Elements(orows[..j]))[rows := Generic]
                       + Tag(Elements(made), AllocFamily(build, config.transform, base))
      modifies this, rows
      ensures made' == made + [rows[j]] && fresh(rows[j]) && rows[j].Length == x
      ensures forall k :: 0 <= k < rows.Length && k != j ==> rows[k] == old(rows[k])
      ensures AllocFamily(build, config.transform, base) == Fftw ==>
                forall i :: 0 <= i < x ==> rows[j][i] == zero
      ensures AllocFamily(build, config.transform, base) == Generic && orows[j] != null ==>
                forall i :: 0 <= i < x && i < orows[j].Length ==> rows[j][i] == old(orows[j][i])
      ensures live == (kept - Elements(orows[..j + 1]))[rows := Generic]
                      + Tag(Elements(made'), AllocFamily(build, config.transform, base))
    {
      ghost var before := live;
      ghost var orig_j := rows[j];
      assert orows[..j + 1] == orows[..j] + [orig_j];
      ElementsAppend(orows[..j], orig_j);
      var row := Realloc(config, rows[j], base, zero, x);
      rows[j] := row;
      ElementsAppend(made, row);
      ReallocStep(before, kept, Elements(orows[..j]), made, rows, orig_j, row, AllocFamily(build, config.transform, base));
      made' := made + [row];
    }
  }

  /** One step of rsn_realloc_array's loop, as a change of the live map. */
  lemma ReallocStep<T>(live: map<object, Family>, kept: map<object, Family>, gone: set<object>,
                       made: seq<array?<T>>, rows: object, orig: array?<T>, row: array<T>, f: Family)
    requires live == (kept - gone)[rows := Generic] + Tag(Elements(made), f)
    requires orig != null ==> orig != rows && orig !in Elements(made)
    ensures (if orig == null then live else live - {orig})[row := f]
            == (kept - (gone + (if orig == null then {} else {orig as object})))[rows := Generic]
               + Tag(Elements(made) + {row as object}, f)
  {
  }
}
