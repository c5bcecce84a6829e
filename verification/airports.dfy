/** types/types.go's `Airport`, airports/lookup.go's in-memory repository and
    airports/airports.go's name and city service. */
module Airports {

  /** One airport as read from the lookup table. */
  datatype Airport = Airport(
    name: string,
    isoCountry: string,
    municipality: string,
    icao: string,
    iata: string,
    coordinates: string)

  /** Go's zero `Airport`: every field empty. */
  const NoAirport := Airport("", "", "", "", "", "")

  /** The repository holds the table from tagged code keys (`#LHR`,
      `*##EGLL`, ...) to airports. */
  datatype Repository = Repository(airports: map<string, Airport>)

  function NewAirportRepository(airports: map<string, Airport>): Repository {
    Repository(airports)
  }

  function GetAll(repo: Repository): map<string, Airport> {
    repo.airports
  }

  /** The airport stored under `code` and true, or the zero airport and
      false when there is none. */
  function FindByCode(repo: Repository, code: string): (r: (Airport, bool))
    ensures r.1 <==> code in GetAll(repo)
    ensures r.1 ==> r.0 == GetAll(repo)[code]
    ensures !r.1 ==> r.0 == NoAirport
  {
    if code in repo.airports then (repo.airports[code], true) else (NoAirport, false)
  }

  /** A repository hands back, and answers from, exactly the table it was
      built with. */
  lemma RepositoryKeepsTable(airports: map<string, Airport>, code: string)
    ensures GetAll(NewAirportRepository(airports)) == airports
    ensures FindByCode(NewAirportRepository(airports), code).1 <==> code in airports
    ensures code in airports ==> FindByCode(NewAirportRepository(airports), code).0 == airports[code]
  {
  }

  /** The service answers name and city queries from a repository. */
  datatype Service = AirportService(repo: Repository)

  /** The airport name under the key `code` exactly as given (no prefix is
      stripped), or `code` itself when the key is absent. */
  function GetAirportName(svc: Service, code: string): (r: string)
    ensures code in GetAll(svc.repo) ==> r == GetAll(svc.repo)[code].name
    ensures code !in GetAll(svc.repo) ==> r == code
  {
    var (airport, exists_) := FindByCode(svc.repo, code);
    if !exists_ then code else airport.name
  }

  /** The municipality under the key `code` exactly as given, or `code`
      itself when the key is absent. */
  function GetCityName(svc: Service, code: string): (r: string)
    ensures code in GetAll(svc.repo) ==> r == GetAll(svc.repo)[code].municipality
    ensures code !in GetAll(svc.repo) ==> r == code
  {
    var (airport, exists_) := FindByCode(svc.repo, code);
    if !exists_ then code else airport.municipality
  }
}
