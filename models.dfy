/** The request and response records of the clustering service. */
module Models {

  /** One browser tab as sent by the extension. */
  datatype TabContent = TabContent(
    tabId: int,
    url: string,
    title: string,
    text: string,
    keywords: seq<string>)

  /** One emitted group. The float `confidence` field, always 0.8, is not modelled. */
  datatype ClusterResult = ClusterResult(
    id: string,
    name: string,
    color: string,
    tabIds: seq<int>)

  /** The exceptions that escape the endpoint (the web framework answers them
      with an internal server error). */
  datatype Error =
    | EmbeddingFailed                 // embed_documents raised
    | UrlWithoutDomain(url: string)   // url.split('/')[2] raised IndexError in the name fallback

  /** `[tab.tabId for tab in tabs]` */
  function TabIds(tabs: seq<TabContent>): (ids: seq<int>)
    ensures |ids| == |tabs|
    ensures forall i :: 0 <= i < |tabs| ==> ids[i] == tabs[i].tabId
  {
    if tabs == [] then [] else TabIds(tabs[..|tabs| - 1]) + [tabs[|tabs| - 1].tabId]
  }
}
