/** The student resource controller: five actions over the `siswa` table,
    each mapping its outcome to one HTTP status. The table is a map from id
    to row with an auto-increment counter; a failure of the database is an
    argument of the action (`readFails`, `writeFails`) saying whether the
    store call it makes throws. */
module SiswaController {
  import opened SiswaValidation

  /** One row of the `siswa` table. */
  datatype Siswa = Siswa(id: int, nama: string, kelas: string, umur: int)

  /** A row whose three fields pass their creation rules. */
  predicate WellFormed(row: Siswa)
  {
    Satisfies(Nama, Str(row.nama)) && Satisfies(Kelas, Str(row.kelas)) && Satisfies(Umur, Int(row.umur))
  }

  /** `Siswa::create($validatedData)`: the new row under the id the store assigns. */
  function NewRow(id: int, p: Patch): Siswa
    requires Complete(p)
  {
    Siswa(id, p.nama.value, p.kelas.value, p.umur.value)
  }

  function Or<T>(o: Option<T>, default: T): T
  {
    if o.Some? then o.value else default
  }

  /** `$siswa->update($validatedData)`: the supplied fields replace the
      stored ones; the id and every other field stay. */
  function ApplyPatch(row: Siswa, p: Patch): Siswa
  {
    Siswa(row.id, Or(p.nama, row.nama), Or(p.kelas, row.kelas), Or(p.umur, row.umur))
  }

  /** A partial update keeps every field the request does not supply, takes
      the supplied value of every field it does, and never changes the id. */
  lemma PartialUpdateFields(row: Siswa, input: Input)
    requires Validate(input, Sometimes).Passed?
    ensures var u := ApplyPatch(row, Validate(input, Sometimes).data);
            && u.id == row.id
            && (if Key(Nama) in input then input[Key(Nama)] == Str(u.nama) else u.nama == row.nama)
            && (if Key(Kelas) in input then input[Key(Kelas)] == Str(u.kelas) else u.kelas == row.kelas)
            && (if Key(Umur) in input then input[Key(Umur)] == Int(u.umur) else u.umur == row.umur)
  {
  }

  /** A partial update of a well-formed row yields a well-formed row: the
      supplied fields passed their rules and the others were already valid. */
  lemma PartialUpdateWellFormed(row: Siswa, input: Input)
    requires WellFormed(row)
    requires Validate(input, Sometimes).Passed?
    ensures WellFormed(ApplyPatch(row, Validate(input, Sometimes).data))
  {
  }

  /** A row created from validated data holds exactly the three supplied
      values and is well-formed. */
  lemma CreatedRowFields(id: int, input: Input)
    requires Validate(input, Required).Passed?
    ensures Complete(Validate(input, Required).data)
    ensures var row := NewRow(id, Validate(input, Required).data);
            && row.id == id && WellFormed(row)
            && input[Key(Nama)] == Str(row.nama)
            && input[Key(Kelas)] == Str(row.kelas)
            && input[Key(Umur)] == Int(row.umur)
  {
  }

  /** The `error` text of each error response ('Gagal mengambil data
      siswa.', 'Gagal menyimpan data siswa.', 'Siswa tidak ditemukan.',
      'Gagal memperbarui data siswa.', 'Gagal menghapus data siswa.'). */
  datatype ErrorKind = FetchFailed | StoreFailed | NotFound | UpdateFailed | DeleteFailed

  datatype Body =
    | RowList(rows: seq<Siswa>)              // the collection from Siswa::all()
    | Record(row: Siswa)                     // one row as JSON
    | NoContent                              // response()->json(null, 204)
    | ValidationError(messages: set<Field>)  // 'Validasi gagal.' with the failing fields
    | Error(error: ErrorKind)

  datatype Response = Response(status: nat, body: Body)

  /** Every row's key is its id. */
  ghost predicate KeyedById(rows: map<int, Siswa>)
  {
    forall k :: k in rows ==> rows[k].id == k
  }

  /** The rows with ids in [lo, hi), in ascending id order. */
  function Listing(rows: map<int, Siswa>, lo: int, hi: int): (r: seq<Siswa>)
    requires KeyedById(rows)
    ensures forall n :: 0 <= n < |r| ==> lo <= r[n].id < hi && r[n].id in rows && rows[r[n].id] == r[n]
    ensures forall k :: lo <= k < hi && k in rows ==> rows[k] in r
    ensures forall m, n :: 0 <= m < n < |r| ==> r[m].id < r[n].id
    decreases hi - lo
  {
    if lo >= hi then []
    else (if lo in rows then [rows[lo]] else []) + Listing(rows, lo + 1, hi)
  }

  /** When every key lies in [1, hi), the listing over [1, hi) holds exactly
      the rows of the table. */
  lemma ListingHoldsTable(rows: map<int, Siswa>, hi: int)
    requires KeyedById(rows)
    requires forall k :: k in rows ==> 1 <= k < hi
    ensures forall x :: x in Listing(rows, 1, hi) <==> x in rows.Values
  {
  }

  /** The `siswa` table, as `SiswaController` sees it through the model. */
  class SiswaTable {
    var rows: map<int, Siswa>
    /** The id the next insert receives (auto-increment). */
    var nextId: int

    /** Ids are positive, below the counter and equal to their key; every
        row passes the creation rules. */
    ghost predicate Valid()
      reads this
    {
      && 1 <= nextId
      && KeyedById(rows)
      && forall k :: k in rows ==> 1 <= k < nextId && WellFormed(rows[k])
    }

    constructor ()
      ensures Valid() && rows == map[] && nextId == 1
    {
      rows := map[];
      nextId := 1;
    }

    /** `index`: every row, or 500 when the store throws. */
    method Index(readFails: bool) returns (r: Response)
      requires Valid()
      ensures readFails ==> r == Response(500, Error(FetchFailed))
      ensures !readFails ==> r.status == 200 && r.body.RowList?
      ensures !readFails ==> forall x :: x in r.body.rows <==> x in rows.Values
      ensures !readFails ==> forall m, n :: 0 <= m < n < |r.body.rows| ==> r.body.rows[m].id < r.body.rows[n].id
    {
      if readFails {
        return Response(500, Error(FetchFailed));
      }
      var all := Listing(rows, 1, nextId);
      ListingHoldsTable(rows, nextId);
      r := Response(200, RowList(all));
    }

    /** `store`: validate all three fields, then insert. */
    method Store(input: Input, writeFails: bool) returns (r: Response)
      requires Valid()
      modifies this
      ensures Valid()
      ensures match Validate(input, Required)
        case Rejected(fields) =>
          r == Response(422, ValidationError(fields)) && rows == old(rows) && nextId == old(nextId)
        case Passed(p) =>
          if writeFails then
            r == Response(500, Error(StoreFailed)) && rows == old(rows) && nextId == old(nextId)
          else
            && Complete(p)
            && old(nextId) !in old(rows)
            && r == Response(201, Record(NewRow(old(nextId), p)))
            && rows == old(rows)[old(nextId) := NewRow(old(nextId), p)]
            && nextId == old(nextId) + 1
    {
      var v := Validate(input, Required);
      match v
      case Rejected(fields) =>
        r := Response(422, ValidationError(fields));
      case Passed(p) =>
        if writeFails {
          r := Response(500, Error(StoreFailed));
        } else {
          CreatedRowFields(nextId, input);
          var row := NewRow(nextId, p);
          rows := rows[nextId := row];
          nextId := nextId + 1;
          r := Response(201, Record(row));
        }
    }

    /** `show`: the row, or 404 whatever the lookup's failure was. */
    method Show(id: int, readFails: bool) returns (r: Response)
      ensures !readFails && id in rows ==> r == Response(200, Record(rows[id]))
      ensures readFails || id !in rows ==> r == Response(404, Error(NotFound))
    {
      if readFails || id !in rows {
        r := Response(404, Error(NotFound));
      } else {
        r := Response(200, Record(rows[id]));
      }
    }

    /** `update`: look the row up first, then validate the supplied fields,
        then write them. */
    method Update(id: int, input: Input, readFails: bool, writeFails: bool) returns (r: Response)
      requires Valid()
      modifies this
      ensures Valid() && nextId == old(nextId)
      ensures readFails ==> r == Response(500, Error(UpdateFailed)) && rows == old(rows)
      ensures !readFails && id !in old(rows) ==> r == Response(404, Error(NotFound)) && rows == old(rows)
      ensures !readFails && id in old(rows) ==>
        match Validate(input, Sometimes)
        case Rejected(fields) =>
          r == Response(422, ValidationError(fields)) && rows == old(rows)
        case Passed(p) =>
          if writeFails then
            r == Response(500, Error(UpdateFailed)) && rows == old(rows)
          else
            && r == Response(200, Record(ApplyPatch(old(rows)[id], p)))
            && rows == old(rows)[id := ApplyPatch(old(rows)[id], p)]
    {
      if readFails {
        return Response(500, Error(UpdateFailed));
      }
      if id !in rows {
        return Response(404, Error(NotFound));
      }
      var v := Validate(input, Sometimes);
      match v
      case Rejected(fields) =>
        r := Response(422, ValidationError(fields));
      case Passed(p) =>
        if writeFails {
          r := Response(500, Error(UpdateFailed));
        } else {
          PartialUpdateWellFormed(rows[id], input);
          var row := ApplyPatch(rows[id], p);
          rows := rows[id := row];
          r := Response(200, Record(row));
        }
    }

    /** `destroy`: delete the row; a missing id is a failure like any other. */
    method Destroy(id: int, readFails: bool, writeFails: bool) returns (r: Response)
      requires Valid()
      modifies this
      ensures Valid() && nextId == old(nextId)
      ensures !readFails && !writeFails && id in old(rows) ==>
        r == Response(204, NoContent) && rows == old(rows) - {id}
      ensures readFails || writeFails || id !in old(rows) ==>
        r == Response(500, Error(DeleteFailed)) && rows == old(rows)
    {
      if readFails || id !in rows || writeFails {
        r := Response(500, Error(DeleteFailed));
      } else {
        rows := rows - {id};
        r := Response(204, NoContent);
      }
    }
  }
}
