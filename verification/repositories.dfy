/** The records the repository manager reads, writes and returns. */
module Repositories {

  /** One chart repository of the config file (helm's `repo.Entry`). */
  datatype Entry = Entry(
    name: string,
    url: string,
    username: string,
    password: string,
    certFile: string,
    keyFile: string,
    caFile: string,
    insecureSkipTlsVerify: bool,
    passCredentialsAll: bool)

  /** The repository config file (helm's `repo.File`); its generation timestamp is not modelled. */
  datatype RepoFile = RepoFile(apiVersion: string, repositories: seq<Entry>)

  /** The `{name, url}` record a listing returns for each repository. */
  datatype RepositoryInfo = RepositoryInfo(name: string, url: string)

  /** The decoded body of an add or update request. */
  datatype AddUpdateRepoRequest = AddUpdateRepoRequest(name: string, url: string)

  /** The entry an add or update puts in the file: a name and URL, no credentials. */
  function NewEntry(name: string, url: string): (e: Entry)
    ensures e.name == name && e.url == url
    ensures e.username == e.password == e.certFile == e.keyFile == e.caFile == ""
    ensures !e.insecureSkipTlsVerify && !e.passCredentialsAll
  {
    Entry(name, url, "", "", "", "", "", false, false)
  }
}
