/** The episode catalog (app.db.crud over app.db.models.Episode), as an
    in-memory table kept in insertion order. */
module Crud {
  import opened Wrappers

  /** A row of the `episodes` table. `duration` is never set by the code
      modelled here; `created_at`, filled in by the database clock, is not
      modelled. */
  datatype Episode = Episode(id: nat, title: string, stationName: string, duration: Option<string>, url: string, filePath: string)

  /** The SQLite message inside the IntegrityError that a second row with the
      same url raises. */
  const UniqueViolation := "UNIQUE constraint failed: episodes.url"

  /** `query(Episode).filter(Episode.url == url).first()`: the first row, in
      table order, whose url is `url`, or none. */
  function FirstWithUrl(rows: seq<Episode>, url: string): (r: Option<Episode>)
    ensures r.Some? ==> r.value.url == url && r.value in rows
    ensures r.Some? ==> exists i :: 0 <= i < |rows| && rows[i] == r.value && forall j :: 0 <= j < i ==> rows[j].url != url
    ensures r.None? <==> forall i :: 0 <= i < |rows| ==> rows[i].url != url
  {
    if rows == [] then None
    else if rows[0].url == url then
      assert rows[0] == rows[0];
      Some(rows[0])
    else
      var r := FirstWithUrl(rows[1..], url);
      assert r.Some? ==> exists i :: 0 <= i < |rows| && rows[i] == r.value && forall j :: 0 <= j < i ==> rows[j].url != url by {
        if r.Some? {
          var i :| 0 <= i < |rows[1..]| && rows[1..][i] == r.value && forall j :: 0 <= j < i ==> rows[1..][j].url != url;
          assert rows[i + 1] == r.value;
          assert forall j :: 0 <= j < i + 1 ==> rows[j].url != url by {
            forall j | 0 <= j < i + 1 ensures rows[j].url != url {
              if j > 0 { assert rows[j] == rows[1..][j - 1]; }
            }
          }
        }
      }
      assert r.None? ==> forall i :: 0 <= i < |rows| ==> rows[i].url != url by {
        if r.None? {
          forall i | 0 <= i < |rows| ensures rows[i].url != url {
            if i > 0 { assert rows[i] == rows[1..][i - 1]; }
          }
        }
      }
      r
  }

  /** The largest id in the table, 0 when it is empty. */
  function MaxId(rows: seq<Episode>): (m: nat)
    ensures forall i :: 0 <= i < |rows| ==> rows[i].id <= m
  {
    if rows == [] then 0
    else
      var m := MaxId(rows[..|rows| - 1]);
      assert forall i :: 0 <= i < |rows| - 1 ==> rows[i] == rows[..|rows| - 1][i];
      if rows[|rows| - 1].id > m then rows[|rows| - 1].id else m
  }

  /** The id SQLite gives the next row of an INTEGER PRIMARY KEY table
      without AUTOINCREMENT: one more than the largest id present. */
  function NextId(rows: seq<Episode>): (n: nat)
    ensures n > 0
    ensures forall i :: 0 <= i < |rows| ==> rows[i].id < n
  {
    MaxId(rows) + 1
  }

  ghost predicate UniqueKeys(rows: seq<Episode>) {
    forall i, j :: 0 <= i < j < |rows| ==> rows[i].url != rows[j].url && rows[i].id != rows[j].id
  }

  class Catalog {
    var episodes: seq<Episode>

    /** The table's constraints: `url` is unique and `id` is the primary key. */
    ghost predicate Valid()
      reads this
    {
      UniqueKeys(episodes)
    }

    constructor ()
      ensures Valid() && episodes == []
    {
      episodes := [];
    }

    /** `get_episode_by_url`. Because urls are unique, the row found is the
        only one with that url. */
    function GetEpisodeByUrl(url: string): (r: Option<Episode>)
      reads this
      requires Valid()
      ensures r.Some? ==> r.value.url == url && forall i :: 0 <= i < |episodes| && episodes[i].url == url ==> episodes[i] == r.value
      ensures r.None? <==> forall i :: 0 <= i < |episodes| ==> episodes[i].url != url
    {
      FirstWithUrl(episodes, url)
    }

    /** `create_episode`: appends one row with `station_name = source` and the
        next id; a url already present makes the commit fail and leaves the
        table as it was. */
    method CreateEpisode(title: string, url: string, source: string, filePath: string) returns (r: Result<Episode, Exception>)
      requires Valid()
      modifies this
      ensures Valid()
      ensures old(GetEpisodeByUrl(url)).Some? ==> r == Err(OtherError(UniqueViolation)) && episodes == old(episodes)
      ensures old(GetEpisodeByUrl(url)).None? ==>
                && r == Ok(Episode(NextId(old(episodes)), title, source, None, url, filePath))
                && episodes == old(episodes) + [r.value]
      ensures r.Ok? ==> GetEpisodeByUrl(url) == Some(r.value)
    {
      if FirstWithUrl(episodes, url).Some? {
        r := Err(OtherError(UniqueViolation));
        return;
      }
      var row := Episode(NextId(episodes), title, source, None, url, filePath);
      episodes := episodes + [row];
      assert episodes[|episodes| - 1] == row;
      r := Ok(row);
    }
  }
}
